# agentic9: a verified model

agentic9 gives an agent a workspace on a Plan 9 machine. It authenticates with
dp9ik, a password-authenticated key exchange over the curve Ed448-Goldilocks,
talks 9P2000 to the remote file system, seeds and mirrors a source tree, runs
commands and relays their output, and keeps local records of what is mounted.
This project models the parts of it whose correctness is not plain from the code
and proves what they are for. `dafny verify dfyconfig.toml` checks everything.

**Key exchange** (`internal/auth/dp9ik/pak.go`). The model is generic in the
modulus `p` and the curve constant `d`; `fieldA` is 1. What is assumed of the
constants is in `Decaf.Params` (p is a prime above 3 with p = 3 mod 4, and d is not
a square, as section 5.2 of RFC 8032 has it) and, for the base point, in
`Spake.GoodGenerator` (it is on the curve and the number that decafEncode takes a
root of is a square); `Spake.SmallInstance` shows that they can be met.
Everything else is proved from the definition of a prime: Fermat's theorem, the
bound on the roots of a polynomial, Euler's criterion, the square roots, the
complete addition law with associativity, double-and-add, Elligator 2, the Decaf
encoding with its cosets, and finally that client and server derive the same key,
while an end that takes off another blinding point does so only under an exact
condition on the two points.

| file | content |
|---|---|
| ModArith, Residues | arithmetic modulo a prime: inverses, Fermat, squares |
| SquareRoot, PanicPrime | `legendre`, `msqrt` (Tonelli-Shanks), `misqrt` |
| Edwards, GroupLaw, Points, Scalar | `edwardsAdd` as a commutative group, `edwardsScale` |
| Decaf, Decoder, RoundTrip, Cosets, Subgroup | `decafEncode`, `decafDecode`, even points and cosets |
| Elligator, Spake | `spake2eeH2P`, `spake2ee1`, `spake2ee2` |

**File system client.** Connection (the connection cache as interleaved steps),
Fids (fid conservation), ChunkedIO (reads and writes in chunks), Wire, Codec,
Layout and DirEntries (the 9P messages, their bytes, framing and directory blocks).

**Commands, seeding, records.** Sentinel and ExecOutput (the exit sentinel and
the line router), RcQuote (quoting for rc), Mirror (tree copy and cleanup),
Reconcile (metadata against runtime records).

What may misbehave may do so at every call. A server is a class whose methods
choose their outcome freely within a contract; where a theorem says exactly when
something succeeds, the answers are a parameter, one for each call (the lines
offered to standard output, the requests that seeding makes, each of them once).
Clocks, random scalars and process liveness are parameters.

## What the code does not do

- `msqrt` is not correct for every odd prime. Its inner exponent `1 << (r-m-1)`
  is a 64-bit shift, so for p - 1 divisible by 2^66 it computes a wrong exponent
  and then shifts by a negative amount, which panics. `SquareRoot.MsqrtCorrectIff`
  gives the exact condition; `PanicPrime.MsqrtPanicsSomewhere` exhibits primes.
- With p = 3 the Decaf round trip fails at 0, because misqrt(0) is 0^0 = 1.
  `RoundTrip.EncodeDecodeIff` shows that this is the only exception.
- `Mkdir` during seeding ignores "file exists", so a remote file at the path of
  an empty seed directory stays a file. `Mirror.DirectoriesMirrored` gives the
  exact condition, `Mirror.FileStays` such a tree.
- Seeding removes a file before it creates it. For a new file below a directory
  the walk stops short without an error, and the stat that follows fails on a fid
  that was never established, with a text of the server's choice; unless that text
  reads as "not found", the copy fails. `Mirror.CopyTree` takes how the answer is
  read as a parameter, `Mirror.SeedEmptyRemote` gives the exact condition for an
  empty remote, and `Mirror.NewFileBelowDirectory` is a seed that fails.
- When standard output refuses a line, the following `Flush` starts over at the
  beginning of that write, so lines already handled are handled again.
  `ExecOutput.RunExec` determines what is handled from the chunks and the answers
  of standard output, `ExecOutput.TwiceIff` says exactly when the log of a run has
  a piece twice, and `ExecOutput.WrittenTwice` is a run in which a line is.
- Refreshing metadata does not compare the agent of the record at the known
  mountpoint. `Reconcile.Refresh` gives the exact condition under which the result
  names another agent's record, `Reconcile.ForeignMount` a table where it does.
- Inspecting a workspace looks at one record, which can hide a live mount.
  `Reconcile.Inspect` shows that it is right exactly when none is hidden, and
  `Reconcile.InspectMisses` is a table where one is.
- A size prefix below 4 makes `rpc` panic, on a buffer of negative length.
  `Codec.PanicsIff` is the condition for this one panic, the only one modelled;
  `Codec.PanicsOnZero` is a reply that causes it.
- An entry of more than 65537 bytes gets a size field that has wrapped around.
  `Codec.DirBack` says what it holds, and `DirEntries.ParseEncodeIff` that an entry
  is read back by ParseDirEntries exactly when its size field holds its size.
- After an error reply, `WriteAt` does not count what the failed request wrote.
  `ChunkedIO.WriteAt` bounds it, and `ChunkedIO.ExtraShows` says exactly when the
  file then differs from one overwritten with the counted bytes;
  `ChunkedIO.UncountedByte` is a file that does.

## Model

| member | source | states |
|---|---|---|
| `ModArith.Inverse` | internal/auth/dp9ik/pak.go:381-383 | modInv of every nonzero residue modulo a prime is its multiplicative inverse |
| `SquareRoot.LegendreValue` | internal/auth/dp9ik/pak.go:243-250 | legendre is 1 or -1 exactly when a^((p-1)/2) is |
| `SquareRoot.SplitTwoAdic` | internal/auth/dp9ik/pak.go:261-266 | the loop writes m as s 2^e with s odd |
| `SquareRoot.FindNonResidue` | internal/auth/dp9ik/pak.go:272-275 | the search ends, below p, at the first number from 2 on whose symbol is -1 |
| `SquareRoot.TonelliLoops` | internal/auth/dp9ik/pak.go:279-296 | the nested loops compute the recursive Tonelli-Shanks step function, panics included |
| `SquareRoot.MsqrtLoops` | internal/auth/dp9ik/pak.go:252-297 | the imperative msqrt is the function that the correctness lemmas are about |
| `SquareRoot.TonelliSpec` | internal/auth/dp9ik/pak.go:279-296 | from x^2 = a b, g^(2^(r-1)) = -1 and b^(2^(r-1)) = 1, with r at most 65, the loop returns a square root of a |
| `SquareRoot.MsqrtCorrect` | internal/auth/dp9ik/pak.go:252-297 | when 2^66 does not divide p - 1, msqrt returns a root of every nonzero square and 0 for everything else, through both branches |
| `SquareRoot.MsqrtPanics` | internal/auth/dp9ik/pak.go:289-290 | when 2^66 divides p - 1, msqrt panics on -1 although -1 is a square |
| `SquareRoot.MsqrtCorrectIff` | internal/auth/dp9ik/pak.go:252-297 | msqrt is correct on all inputs if and only if 2^66 does not divide p - 1 |
| `PanicPrime.FermatFactorPanics` | internal/auth/dp9ik/pak.go:289-290 | every prime factor of 2^(2^65) + 1 is a modulus on which msqrt panics |
| `PanicPrime.MsqrtPanicsSomewhere` | internal/auth/dp9ik/pak.go:289-290 | there are odd primes on which msqrt panics |
| `SquareRoot.MisqrtSpec` | internal/auth/dp9ik/pak.go:299-309 | in both branches, a misqrt(a)^2 = 1 for every nonzero square a and misqrt(0) = 0 once p > 3; for a non-square it is -1 by the power and misqrt(a) = 0 through msqrt |
| `SquareRoot.PrincipalRoot` | internal/auth/dp9ik/pak.go:252-309 | when p = 3 (mod 4), msqrt and misqrt of a square return, of two opposite numbers, the one that is itself a square |
| `Edwards.AddShape` | internal/auth/dp9ik/pak.go:169-184 | the reduced coordinates of the sum stand for (EF, GH, FG, EH) |
| `Edwards.AddClosed` | internal/auth/dp9ik/pak.go:169-184 | the sum of two solutions of X^2+Y^2 = Z^2+dT^2, XY = ZT is one, for every modulus |
| `Edwards.AddComplete` | internal/auth/dp9ik/pak.go:169-184 | when d is not a square, the sum of any two points has Z nonzero |
| `GroupLaw.AssociativeX` | internal/auth/dp9ik/pak.go:169-184 | the x coordinates of (P1+P2)+P3 and P1+(P2+P3) agree |
| `GroupLaw.AssociativeY` | internal/auth/dp9ik/pak.go:169-184 | the y coordinates of (P1+P2)+P3 and P1+(P2+P3) agree |
| `Points.AddAssociates` | internal/auth/dp9ik/pak.go:169-184 | edwardsAdd is associative up to projective equality |
| `Points.AddCommutes` | internal/auth/dp9ik/pak.go:169-184 | edwardsAdd is commutative, coordinate for coordinate |
| `Points.AddRespects` | internal/auth/dp9ik/pak.go:169-184 | edwardsAdd maps projectively equal points to projectively equal sums |
| `Points.AddIdentity` | internal/auth/dp9ik/pak.go:186-187 | the point (0, 1, 1, 0) that edwardsScale starts from is neutral |
| `Points.AddInverse` | internal/auth/dp9ik/pak.go:120-125 | the negated point that spake2ee2 builds is the inverse |
| `Points.Unblind` | internal/auth/dp9ik/pak.go:109-129 | adding B and then the negated B gives back P |
| `Scalar.EdwardsScale` | internal/auth/dp9ik/pak.go:186-198 | double-and-add returns a point equal to the sum of s copies of P, the identity for s not positive |
| `Scalar.ScaleIsTimes` | internal/auth/dp9ik/pak.go:186-198 | edwardsScale is the scalar multiple, for every scalar |
| `Scalar.ScaleRespects` | internal/auth/dp9ik/pak.go:186-198 | edwardsScale maps projectively equal points to projectively equal multiples |
| `Scalar.ScaleTwice` | internal/auth/dp9ik/pak.go:186-198 | scaling by a and then by b is scaling by a b |
| `Scalar.TimesSum` | internal/auth/dp9ik/pak.go:169-198 | a multiple of a sum is the sum of the multiples |
| `Scalar.ShareBlinded` | internal/auth/dp9ik/pak.go:109-113 | the point that spake2ee1 encodes is x G + B |
| `Scalar.SecretUnblinds` | internal/auth/dp9ik/pak.go:120-128 | from Q + B, the point that spake2ee2 encodes is x Q |
| `Scalar.SecretsAgree` | internal/auth/dp9ik/pak.go:109-129 | without encodings, the ends send x G + M and y G + N up to projective equality, and both reach x y G |
| `Decaf.AbsUnique` | internal/auth/dp9ik/pak.go:350-355 | decafNeg(s, s) depends on s up to sign only |
| `Decaf.DecafNegSigns` | internal/auth/dp9ik/pak.go:350-355 | decafNeg(n, r) is r or -r according to the sign of n |
| `Decaf.EncodeOf` | internal/auth/dp9ik/pak.go:200-209 | decafEncode is the non-negative one of s and -s with X Z s = Z^2 + a X Y, where a^2 (Z^2-Y^2) = (1-d) Z^2 and -2a is non-negative |
| `Decaf.EncodeZero` | internal/auth/dp9ik/pak.go:200-209 | a point with Z^2 = Y^2 is encoded as 0 |
| `Decoder.DecodeUnfold` | internal/auth/dp9ik/pak.go:211-241 | decafDecode accepts a nonzero s in range exactly when (1+s^2)^2 - 4 d s^2 is a square, and what it then returns |
| `Decoder.DecodeZero` | internal/auth/dp9ik/pak.go:211-241 | 0 decodes to the identity |
| `Decoder.DecodeIsPoint` | internal/auth/dp9ik/pak.go:211-241 | every accepted number decodes to a point of the curve with Z nonzero |
| `RoundTrip.EncodeDecode` | internal/auth/dp9ik/pak.go:200-241 | decafEncode(decafDecode(s)) = s for every accepted s, 0 included |
| `RoundTrip.EncodeDecodeIff` | internal/auth/dp9ik/pak.go:200-241 | the round trip holds for all accepted numbers if and only if p is not 3 |
| `Cosets.DecodeEncode` | internal/auth/dp9ik/pak.go:200-241 | the encoding of an even point is accepted and decodes to the point or its opposite (-X, -Y) |
| `Cosets.DecodeEven` | internal/auth/dp9ik/pak.go:211-241 | every accepted number decodes to an even point |
| `Cosets.DecodeInjective` | internal/auth/dp9ik/pak.go:200-241 | different accepted numbers decode to different cosets, so decafDecode is a bijection onto the cosets of even points |
| `Cosets.EncodeRespects` | internal/auth/dp9ik/pak.go:200-209 | decafEncode is the same on projectively equal and on opposite even points |
| `Subgroup.EvenAdd` | internal/auth/dp9ik/pak.go:169-184 | the sum of two even points is even |
| `Subgroup.EvenScale` | internal/auth/dp9ik/pak.go:186-198 | every multiple of an even point is even |
| `Subgroup.CosetAdd` | internal/auth/dp9ik/pak.go:169-184 | adding a point respects cosets |
| `Subgroup.CosetScale` | internal/auth/dp9ik/pak.go:186-198 | edwardsScale respects cosets |
| `Subgroup.EncodeInjective` | internal/auth/dp9ik/pak.go:200-209 | even points have the same encoding if and only if they are in one coset |
| `Elligator.ElligatorMaps` | internal/auth/dp9ik/pak.go:131-167 | the branch is chosen by whether N D is zero, a square or neither, D s^2 and D t have the values that the map prescribes for it, and s has the sign of the root that is a square |
| `Elligator.ElligatorLands` | internal/auth/dp9ik/pak.go:131-167 | for every r0 and every non-square n, all three branches return an even point of the curve with Z nonzero |
| `Elligator.HashLands` | internal/auth/dp9ik/pak.go:100-107 | for every h, hashing to the curve returns an even point |
| `Elligator.Spake2eeH2P` | internal/auth/dp9ik/pak.go:100-107 | the search for a non-residue ends, and the result is the point of r = n h^2 with n the least non-square from 2 on, on the curve and even |
| `Elligator.HashDetermined` | internal/auth/dp9ik/pak.go:100-167 | that determines the point, up to projective equality, from the hash alone |
| `Spake.HashesDiffer` | internal/auth/dp9ik/pak.go:100-107 | p = 7, d = 5: the hashes 0 and 1 lead to points in different cosets |
| `Spake.GeneratorStands` | internal/auth/dp9ik/pak.go:109-110 | the base point has the coordinates genX and genY |
| `Spake.GeneratorEven` | internal/auth/dp9ik/pak.go:109-110 | a base point that meets the curve equation and the square condition is an even point |
| `Spake.ShareSent` | internal/auth/dp9ik/pak.go:109-113 | the number that spake2ee1 sends is accepted and decodes to the coset of x G + B |
| `Spake.KeyOf` | internal/auth/dp9ik/pak.go:115-129 | from a number that stands for Q + B, spake2ee2 with that B makes the encoding of x Q |
| `Spake.KeyWithOther` | internal/auth/dp9ik/pak.go:109-129 | an end that takes off B' where B was put on obtains the encoding of x (y G + B - B') |
| `Spake.KeyIsTimes` | internal/auth/dp9ik/pak.go:109-129 | decoding, unblinding with the same point, scaling and encoding the other end's message gives the encoding of (x y) G |
| `Spake.KeysAgree` | internal/auth/dp9ik/pak.go:100-129 | for all hashes and scalars, neither end rejects the other's message and both obtain the same key |
| `Spake.KeyMatchesIff` | internal/auth/dp9ik/pak.go:100-129 | it obtains the key of the right blinding point if and only if x (B - B') is in the coset of the identity |
| `Spake.SecretOnCurve` | internal/auth/dp9ik/pak.go:115-129 | whatever number is received, an accepted one leads to points of the curve only, and to even ones when the blinding point is even |
| `Connection.Client.CheckCache` | internal/exportfs/client.go:201-212 | the first critical section of connect: its verdict and no change |
| `Connection.Client.PublishStream` | internal/exportfs/client.go:228-239 | the second critical section of connect: new cache, verdict, and whether the caller's stream is closed |
| `Connection.Client.RecordError` | internal/exportfs/client.go:284-291 | the critical section of recordError: new cache and the stream it closes |
| `Connection.StepInv` | internal/exportfs/client.go:200-292 | every step of any caller keeps the invariant |
| `Connection.OneClient` | internal/exportfs/client.go:200-240 | over a whole run, any two clients that connect returns are the same |
| `Connection.UnhealthySticks` | internal/exportfs/client.go:267-292 | unhealthy is sticky, leaves no cached client, and no new client is handed out from then on |
| `Connection.UnhealthyIff` | internal/exportfs/client.go:267-292 | over a whole run, the connection is unhealthy exactly when a lost stream has been reported, by an operation or by a connect that failed with it; no other error makes it so |
| `Connection.CachedStays` | internal/exportfs/client.go:267-292 | until then a cached client stays cached and open |
| `Connection.LostRefuses` | internal/exportfs/client.go:200-240 | once unhealthy, both sections of connect refuse |
| `Connection.NoLeak` | internal/exportfs/client.go:200-292 | every opened stream is closed exactly once, cached, or held by one running connect, and in one of these places only |
| `Connection.AllClosed` | internal/exportfs/client.go:200-292 | once unhealthy and with no connect running, every stream has been closed |
| `Connection.ReturnsOpen` | internal/exportfs/client.go:200-240 | a client that connect returns is cached and open at that moment |
| `Connection.HealthyServes` | internal/exportfs/client.go:200-240 | while healthy, the first section returns the known client or lets the caller dial, and the second returns a client |
| `Fids.Client.AllocFID` | internal/ninep/client.go:26-35 | returns the counter and advances it with 32-bit wrap-around, past NOFID, 0 and 1 |
| `Fids.FreshInWindow` | internal/ninep/client.go:26-35 | allocated fids are never 0, 1 or NOFID, and two are equal exactly when a multiple of 2^32 - 3 allocations lies between them |
| `Fids.NoLiveReuse` | internal/ninep/client.go:26-35 | in every state of a client, the next fid is not a live one unless a file has been open for 2^32 - 3 allocations or more |
| `Fids.Client.WalkTo` | internal/exportfs/client.go:242-265 | on success exactly one fid is added to the server's table, after any error (a partial walk included) none; no live fid is met while all files are young |
| `Fids.Client.Query` | internal/exportfs/client.go:56-185 | Stat, List, Rename, Chmod and Truncate leave the fid table unchanged for every mix of server errors, and succeed exactly when the server refuses none of their requests, all of which it has then served |
| `Fids.Client.Open` | internal/exportfs/client.go:97-136 | Open and Create add exactly one fid or nothing, and nothing exactly when a request is refused |
| `Fids.Client.Close` | internal/exportfs/client.go:402-404 | Close removes exactly the fid of its handle and reports the error of the clunk |
| `Fids.Client.Mkdir` | internal/exportfs/client.go:138-144 | Mkdir leaves the fid table unchanged and succeeds exactly when neither a request nor the clunk is refused |
| `Fids.Client.Remove` | internal/exportfs/client.go:146-152 | Remove leaves the fid table unchanged and succeeds exactly when no request is refused |
| `Fids.Perform` | internal/exportfs/client.go:56-185 | each operation changes what is open by what it returns, succeeds exactly when the server refuses nothing that it reports, and succeeds on an obliging server while all files are young |
| `Fids.RunAll` | internal/exportfs/client.go:56-185 | after any sequence of operations the table holds the root and the fids that the operations yielded minus those closed; if all succeed nothing was refused, and if nothing was refused all succeed; on an obliging server every operation succeeds that finds all files young |
| `Fids.ShortRun` | internal/exportfs/client.go:56-185 | in a run of fewer than 2^32 - 3 operations all files are young |
| `ChunkedIO.WriteAt` | internal/exportfs/client.go:383-400 | the file is the old one overwritten with exactly p[:total] at the offset, but for what a request wrote before an error reply; no error exactly when all is written |
| `ChunkedIO.ExtraShows` | internal/exportfs/client.go:383-400 | bytes written before an error reply show exactly when the file did not hold them already |
| `ChunkedIO.UncountedByte` | internal/exportfs/client.go:391-394 | an empty file, one byte, and an error reply after it was written: WriteAt returns 0 and the file has the byte |
| `ChunkedIO.ReadAt` | internal/exportfs/client.go:357-381 | the buffer starts with the file's bytes at the offset and is otherwise unchanged; all available bytes when reads are short at the end of the file only and none fails |
| `ChunkedIO.CopyContents` | cmd/agentic9/main.go:1184-1207 | a nil return means that the remote contents equal the local contents, however the local file is read |
| `Wire.ItemBack` | internal/ninep/codec.go:226-242 | every read primitive undoes its write primitive, whatever bytes follow |
| `Codec.DirBack` | internal/ninep/codec.go:186-224 | unmarshalDir undoes marshalDir for entries of any size, and the patched first two bytes are the size of the rest modulo 2^16 |
| `Codec.MarshalBack` | internal/ninep/codec.go:10-184 | for all 23 types within their length fields, Unmarshal(Marshal(f)) is f with the fields zeroed that its message does not carry |
| `Layout.MarshalLayout` | internal/ninep/codec.go:10-86 | for every message and every byte string: Marshal returns it if and only if the type is one of the 23 and the size, the type, the tag and each field stand at their offsets, least significant byte first |
| `Layout.UnmarshalLayout` | internal/ninep/codec.go:88-184 | bytes with that layout are read as the message, and what is read has the same layout |
| `Layout.DirLayoutIff` | internal/ninep/codec.go:186-206 | marshalDir returns exactly the bytes that have the layout of a directory entry |
| `Layout.LEByte` | internal/ninep/codec.go:226-229 | byte i of an integer is its value divided by 256^i, modulo 256 |
| `Codec.FrameBack` | internal/ninep/client.go:123-131 | the size prefix delimits exactly one marshalled message |
| `Codec.MessagesBack` | internal/ninep/client.go:110-140 | any concatenation of marshalled messages is split back into those messages, and the bytes after them are kept |
| `Codec.ReadReplies` | internal/ninep/client.go:110-140 | successive calls on one stream take the replies off it one after the other, up to the first error or panic |
| `Codec.PanicsIff` | internal/ninep/client.go:123-131 | the one panic modelled, the buffer of negative length, is met exactly when the size prefix is below 4 |
| `Codec.PanicsOnZero` | internal/ninep/client.go:127-128 | a reply that starts with four zero bytes makes it panic |
| `DirEntries.ParseDirEntries` | internal/ninep/dir.go:9-27 | the loop computes the recursive parse, error for a truncated entry included |
| `DirEntries.ParseAppend` | internal/ninep/dir.go:9-27 | parsing is a homomorphism on complete blocks |
| `DirEntries.ParseEncode` | internal/ninep/dir.go:9-31 | ParseDirEntries inverts concatenated EncodeDir for every list of entries whose sizes fit their size fields |
| `DirEntries.ParseEncodeIff` | internal/ninep/dir.go:9-31 | an entry is read back exactly when its size fits its size field |
| `DirEntries.PrefixAccepted` | internal/ninep/dir.go:9-31 | a prefix of encoded entries, whose sizes fit, is accepted if and only if it ends on an entry boundary |
| `DirEntries.ListEntries` | internal/exportfs/client.go:74-94 | however the server cuts the directory into replies, List returns the entries of the whole, and fails exactly when a reply ends inside an entry |
| `Sentinel.OverlapSuffix` | internal/remoteexec/runner.go:114-125 | returns the longest suffix of the data that is a proper prefix of the sentinel |
| `Sentinel.FeedBytes` | internal/remoteexec/runner.go:88-107 | one chunk keeps the relation between bytes fed, bytes made visible, buffer, done and status |
| `Sentinel.Parser.Feed` | internal/remoteexec/runner.go:84-108 | done exactly when a newline follows the first sentinel of all bytes fed; then the output is the bytes before it and the status the text after it without the spaces around it; until then output and buffer make up the stream; and the output is a function of the chunks |
| `Sentinel.TrimSpaceIff` | internal/remoteexec/runner.go:104 | the status is what is left of the text when spaces are taken off both ends until neither end has one, and nothing else is |
| `Sentinel.AllSpaces` | internal/remoteexec/runner.go:104 | the status is empty exactly for a text of spaces |
| `Sentinel.IsSpaceIff` | internal/remoteexec/runner.go:104 | the spaces are the UTF-8 encodings of the white space characters |
| `Sentinel.ShownSpec` | internal/remoteexec/runner.go:84-108 | which bytes are shown: those before a complete sentinel; without a sentinel, all but the longest possible start of one; with one that waits for its newline, a prefix of what precedes it |
| `Sentinel.ChunkIndependent` | internal/remoteexec/runner.go:84-108 | two ways of splitting one stream give the same done, status and output, and with no sentinel fewer bytes than its length are withheld |
| `ExecOutput.PiecesConcat` | cmd/agentic9/main.go:687-714 | the pieces handled are the bytes, none lost and none repeated |
| `ExecOutput.LinesAppend` | cmd/agentic9/main.go:673-714 | splitting into lines can be resumed from the unterminated tail |
| `ExecOutput.Router.HandleLine` | cmd/agentic9/main.go:716-730 | a line is recorded as a warning, or offered to standard output, which takes it unchanged or refuses it |
| `ExecOutput.Router.FlushLines` | cmd/agentic9/main.go:687-714 | handles the lines, and on Flush the tail, up to the first one refused; on a refusal the pending bytes stay |
| `ExecOutput.Router.Write` | cmd/agentic9/main.go:673-681 | handles the lines of the pending bytes and the chunk and keeps the tail |
| `ExecOutput.LinesShape` | cmd/agentic9/main.go:687-714 | every line ends with its one newline, and the tail has none |
| `ExecOutput.BindWarningIff` | cmd/agentic9/main.go:732-750 | a warning is one of the two messages followed by carriage returns and newlines only |
| `ExecOutput.WarningLineEnd` | cmd/agentic9/main.go:732-750 | a benign warning is recognised whatever its line ending |
| `ExecOutput.RunExec` | internal/remoteexec/runner.go:28-53 | for every chunking and all answers of standard output: exited exactly when the sentinel is complete and every piece before it is taken, with code 0 exactly when the text after it is spaces only and code 1 otherwise; session ended exactly when it is not complete and no line is refused; what is handled, in order, in every case, with the retry after a refused line |
| `ExecOutput.FirstRefusal` | cmd/agentic9/main.go:687-730 | handling stops at the first line that is no warning and that standard output refuses in its turn |
| `ExecOutput.OutputIntact` | cmd/agentic9/main.go:673-730 | when nothing is refused, every piece is handled once and in order, the warnings recorded and everything else written; without warnings what is written is what is shown, byte for byte |
| `ExecOutput.StatusLine` | internal/remoteexec/runner.go:49-52 | a stream of the sentinel, a text and a newline exits with the trimmed text, code 0 exactly for spaces only, and writes nothing |
| `ExecOutput.FailedCommand` | internal/remoteexec/runner.go:49-52 | the stream "agentic9-exit failed" after byte 1 exits with code 1 and status failed |
| `ExecOutput.TwiceIff` | cmd/agentic9/main.go:687-714 | the log of a run is the visible pieces in some order, which has a piece twice exactly when a line is refused, another came before it in its write, and standard output takes that one again |
| `ExecOutput.WrittenTwice` | cmd/agentic9/main.go:624-626 | one chunk of two lines, the second refused once: the first line is written twice |
| `RcQuote.RcQuoteCommand` | internal/remoteexec/runner.go:66-76 | rc's lexer reads the quoted command line back as exactly the arguments |
| `RcQuote.LexQuoted` | internal/remoteexec/runner.go:66-76 | lexing inverts quoting for every argument list, with empty strings, quotes and newlines |
| `RcQuote.QuoteInjective` | internal/remoteexec/runner.go:66-76 | quoting is injective |
| `Mirror.GitLeftOut` | cmd/agentic9/main.go:1230-1232 | exactly the seed paths whose first name is not .git are seen, and what is below .git stays as it was while seeding |
| `Mirror.CopyFile` | cmd/agentic9/main.go:1164-1208 | succeeds exactly when nothing is in the way, which includes that a missing path reads as missing, and then the path holds the file; after a failure, what is left |
| `Mirror.CopyWalk` | cmd/agentic9/main.go:1094-1141 | the copy succeeds exactly when every entry of the seed fits, and then the tree is the old one with the seed put into it; otherwise the entries before the first that does not fit are put, and the file at its path may be gone |
| `Mirror.ListPaths` | cmd/agentic9/main.go:1210-1228 | lists exactly the paths below the root, each once |
| `Mirror.NoChildrenLeft` | cmd/agentic9/main.go:1145-1160 | a path has no remaining children when the cleanup loop comes to it |
| `Mirror.RemoveExtras` | cmd/agentic9/main.go:1145-1160 | exactly the unseen paths go, and the loop fails exactly where the server refuses a removal; then all deeper unseen paths are gone and no path that is less deep |
| `Mirror.CopyTree` | cmd/agentic9/main.go:1092-1162 | when seeding succeeds, if and only if; a nil return of a mirror leaves the seen part of the copied tree, for a regular seed exactly the seed's paths outside .git with the seed's file contents; after an error, the tree that seeding or cleanup leaves |
| `Mirror.SeedEmptyRemote` | cmd/agentic9/main.go:1173-1176 | a seed is copied to an empty remote that refuses nothing exactly when the client reads the answers for its missing files as "not found" |
| `Mirror.NewFileBelowDirectory` | internal/exportfs/client.go:242-265 | a directory and a file in it, whose stat on an unestablished fid reads as a failure: seeding fails at the file |
| `Mirror.DirectoriesMirrored` | cmd/agentic9/main.go:1119-1126 | a seed directory is a directory of the remote exactly where the remote had no file before |
| `Mirror.FileStays` | cmd/agentic9/main.go:1119-1126 | a remote file at an empty seed directory: seeding succeeds and the file stays |
| `Reconcile.Runtime.List` | internal/fusefs/runtime.go:67-94 | returns exactly the decodable records in the order of their mountpoints, or an error exactly when one is not decodable |
| `Reconcile.Runtime.ClearStale` | internal/fusefs/runtime.go:112-125 | removes the record exactly when it can be read and its process is gone, so every live mount stays recorded |
| `Reconcile.LessIff` | internal/fusefs/runtime.go:90-92 | the order of the mountpoints is that of the first byte at which they differ |
| `Reconcile.FindByAgent` | cmd/agentic9/main.go:1382-1416 | returns the hinted record if it qualifies, else the newest that does (of equal times the first by mountpoint); not found means that none does; an error exactly when a record is damaged and the hint does not decide |
| `Reconcile.ChosenOnce` | cmd/agentic9/main.go:1382-1416 | that record is unique |
| `Reconcile.Refresh` | cmd/agentic9/main.go:890-930 | an error-free refresh that says mounted names a live mounted record with that pid, one that says unmounted implies that the agent has none; metadata not on a live record gets the record chosen for the agent; metadata that already agrees is returned unchanged and not saved; changed metadata is returned without an error only when saving it succeeds; the record named is another agent's exactly when the metadata was mounted on such a live record before |
| `Reconcile.SaveThenRefresh` | cmd/agentic9/main.go:828-830 | after a mount that is the agent's latest has been recorded, an error-free refresh names it, if and only if the metadata did not name another mountpoint with a record that a refresh keeps or takes |
| `Reconcile.SavedRecovered` | internal/fusefs/runtime.go:43-53 | a record just saved, of a live mount and later than the agent's others, is the one that a refresh recovers unless the metadata's own mountpoint decides |
| `Reconcile.RefreshTwice` | cmd/agentic9/main.go:890-930 | a second refresh changes nothing and saves nothing |
| `Reconcile.ForeignMount` | cmd/agentic9/main.go:904-907 | a table on which a refresh keeps an agent, which has no live mount, mounted on another agent's record |
| `Reconcile.Inspect` | cmd/agentic9/main.go:1464-1509 | reports mounted exactly when the record it looks at is live, and is right about the agent having a live mount exactly when none is hidden behind a dead record |
| `Reconcile.InspectThenRefresh` | cmd/agentic9/main.go:890-930 | if inspect reports mounted, then so does an error-free refresh |
| `Reconcile.InspectMisses` | cmd/agentic9/main.go:1493-1509 | a table on which the agent has a live mount and inspect reports none |

## Left out

- The hash, HKDF, PBKDF2, AEAD and TLS-PSK code and random number generation: library code with no body here.
- The dp9ik handshake, the ticket layouts and the byte form of points and scalars: sequential I/O and fixed offsets.
- The concrete 448-bit constants: no lemma computes with them; `Params` and `GoodGenerator` say what is used of them.
- Decoding on points that are not even: the exchange never produces one.
- The message texts that recordError classifies: an error is either a lost connection or another one.
- Cancelled calls in Fids: a context cancelled after walkTo leaves a fid behind.
- A transport that dies in the middle of a call in Fids and ChunkedIO, and a server that reports more bytes than it was sent.
- Codec: Marshal and Unmarshal are modelled on values, not on a buffer that is patched and a reader that advances.
- Codec.MarshalBack: a stat message without an entry is outside it; it decodes to an entry of zeros.
- Mirror: an answer for an unestablished fid that reads as "file exists", a listing that the server refuses, permission bits, and the order of paths of equal depth.
- ExecOutput.Router.HandleLine: a line that standard output takes in part, and the JSON form of bytes that are not UTF-8, which are not emitted unchanged.
- Mirror.CopyFile: writing is one step here; its chunks are the subject of ChunkedIO.
- Record keys are mountpoints; that SHA-256 keeps them apart is taken for granted.
- FUSE nodes, errno mapping, process spawning, signals, polling, configuration, flags and report formats: thin or OS-level.
- `internal/sync/sync.go`: local file system calls only.
