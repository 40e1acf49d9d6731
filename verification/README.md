# n2n: codec, cipher and peer protocol

A model of three parts of the bundled n2n VPN code, each with proofs of what the part is for.

**The LZO1X-1 codec and Adler-32** (`minilzo.c`). A list of phrases (a literal run and the match after it)
stands between the two sides. The compressor, with its hash dictionary and its greedy matches, writes the
code of a list that expands to the input, whatever the dictionary held before. The decompressor is an
abstract machine whose states are the labels of its goto-driven body; the imperative decompressor, in the
build that copies bytes and in the one that copies four at a time, computes what the machine computes.
From this follow the round trip, the size bound, and what holds of the decompressor on arbitrary input: it
accepts exactly the streams that spell a program of literal runs and matches, in all five forms of matches,
and computes what the program means. Of the compressor's search it is proved what it finds, so that repetition
is compressed with any dictionary.

**Twofish with chaining and ciphertext stealing** (`twofish.c`). The rounds, the key schedule with its
Reed-Solomon code, the key-dependent tables next to the direct function, zero-IV
chaining as a recursive function, stealing for a partial last block, and the framed format with its
in-place hexadecimal form. The block function is proved to be the cipher of the Twofish paper, in single
rounds and with the function h. The one-block delay queue with its own flush pointer is proved to write what the
recursive definition says, each byte in its place and nothing outside.

**The peer protocol, version 2** (`edge.c`, `sn.c`, `n2n.c`). The hash table of peers with the table's own key
equality, the edge that moves peers between pending and known, and the supernode that keeps registrations
and answers queries. The handlers run on peer structures in hash tables; functions on maps say what they
do, and invariants over whole runs are proved of these functions.

| module | content |
|---|---|
| `LzoFormat`, `LzoMachine` | phrases, their expansion and their bytes; the decompressor as a machine |
| `LzoCompress`, `LzoDecompress` | both sides as they run |
| `LzoPrograms`, `LzoDecoding`, `LzoAccepted` | streams as programs; what is spelled is decoded, and what is accepted is spelled |
| `LzoStreams` | the compressor's streams as programs |
| `LzoSearch` | what the compressor's search finds, and texts of one repeated byte |
| `LzoRejected` | input that the decompressor does not accept |
| `LzoTheorems` | the theorems about both sides together |
| `Adler` | the checksum, unrolled and with deferred reduction |
| `TwofishBlock` | rounds and their inverse |
| `TwofishReedSolomon`, `TwofishKeys` | the code for the S-box words; tables and subkeys |
| `TwofishPaper` | the cipher as the Twofish paper defines it, and the code as this cipher |
| `TwofishCbc`, `TwofishStream`, `TwofishFrame` | chaining and stealing; queue and flush pointer; frame and hexadecimal form |
| `PeerTable` | the table of peers |
| `EdgeProtocol`, `EdgeNode` | the edge as functions, and as it runs |
| `EdgeLaws` | single messages at an edge, and the handshake of two |
| `SupernodeProtocol`, `SupernodeNode` | the supernode as functions, and as it runs |
| `SupernodeLaws` | group addresses and acknowledgements |

The documentation and the code differ in four places, and the model follows the code.

- The peer table is said to be searched by MAC address; what it distinguishes is the hash bucket and the bytes
  in front of the first zero. A lookup identifies the address if and only if none of its first five bytes is
  zero (`PeerTable.KeyDecides`; `PeerTable.DifferentMacsCanShareAKey` has an example).
- The raw Twofish functions are said to return the number of bytes processed; for 1 to 15 bytes they return 16,
  and such a text comes back padded with zeros (`TwofishCbc.RawRoundTrip`; an example is
  `TwofishCbc.OneByteIsNotRestored`).
- The supernode is said to broadcast a unicast message for an unknown address; it drops it, and it forwards to a
  known address whatever its community (`SupernodeProtocol.UnicastGoesToTheLatestRegistration`; an example is
  `SupernodeProtocol.UnicastCrossesAndDrops`).
- The supernode is meant to leave the sender out of its own broadcasts. It does so in every run if and only if
  none of the first five bytes of the sender's address is zero (`SupernodeProtocol.SenderIsLeftOut`); otherwise
  a device with the same key can have registered before (`SupernodeProtocol.SenderHearsItself`).

The size bound of the codec, n + n/16 + 64 + 3, is met with room to spare: n + n/16 + 4 is enough
(`LzoCompress.StreamSize`).

## Model

| member | source | states |
|---|---|---|
| LzoTheorems.RoundTrip | bundles/n2n_meyerd/n2n_v1/minilzo.c:2822-3107 | for every input, every leftover dictionary, whatever lies behind the compressed bytes, and any capacity of at least the original length, decompressing ends with Ok, at the end of the stream, with exactly the input |
| LzoTheorems.RoundTripNeedsRoom | bundles/n2n_meyerd/n2n_v1/minilzo.c:3659-3663 | the compressed stream decompresses with Ok if and only if the original fits into the output |
| LzoTheorems.CapacityDecides | bundles/n2n_meyerd/n2n_v1/minilzo.c:3654-3663 | any stream that succeeds with one capacity gives the same result with every capacity its output fits in, and an output overrun with every other |
| LzoTheorems.CompressedSize | bundles/n2n_meyerd/n2n_v1/minilzo.c:2923-3045 | the compressed size is at most n + n/16 + 64 + 3 |
| LzoTheorems.OkIgnoresTheRest | bundles/n2n_meyerd/n2n_v1/minilzo.c:3649-3652 | although distance bytes are read unguarded, a result of Ok is the same for any bytes behind the input |
| LzoAccepted.AcceptsExactlyPrograms | bundles/n2n_meyerd/n2n_v1/minilzo.c:3718-4106 | for every input, capacity and memory behind the input, the decompressor succeeds if and only if the input spells a program whose meaning fits in the output, and then its output is that meaning |
| LzoAccepted.ProgramRuns | bundles/n2n_meyerd/n2n_v1/minilzo.c:3775-4077 | a program spelled up to the end of the input runs to its meaning, in each of the three contexts an opcode is read in |
| LzoAccepted.ProgramWasSpelled | bundles/n2n_meyerd/n2n_v1/minilzo.c:3775-4077 | an accepting run has read a program whose meaning is its output |
| LzoAccepted.CodeDecodes | bundles/n2n_meyerd/n2n_v1/minilzo.c:3826-4021 | each of the five forms of matches decodes to its distance and length |
| LzoAccepted.RepeatWasSpelled | bundles/n2n_meyerd/n2n_v1/minilzo.c:3826-4021 | every opcode that leads to a copy spells one of these forms |
| LzoAccepted.SpellingDeterminesMeaning | bundles/n2n_meyerd/n2n_v1/minilzo.c:3718-4106 | the format is unambiguous: programs with the same bytes have the same meaning |
| LzoRejected.GoodStreamWithMore | bundles/n2n_meyerd/n2n_v1/minilzo.c:3649-3652 | a good stream with more bytes behind it is decompressed completely, and reported as not consumed at its very end |
| LzoRejected.StreamsArePrefixFree | bundles/n2n_meyerd/n2n_v1/minilzo.c:3718-4106 | no accepted stream is a proper beginning of another one |
| LzoRejected.WrongDistanceIsRejected | bundles/n2n_meyerd/n2n_v1/minilzo.c:3666-3667 | a match of any form that reaches in front of the output is a lookbehind overrun behind its code, with the output so far |
| LzoRejected.MatchWithoutRoomIsRejected | bundles/n2n_meyerd/n2n_v1/minilzo.c:3659-3663 | a match of any form without room is an output overrun, and nothing of it is copied |
| LzoRejected.ShortLiteralRunIsRejected | bundles/n2n_meyerd/n2n_v1/minilzo.c:3649-3652 | a literal run that has room, but not all its bytes and one more, is an input overrun behind its header |
| LzoRejected.MissingEndIsReported | bundles/n2n_meyerd/n2n_v1/minilzo.c:4078-4082 | input that ends without an end marker is reported as such |
| LzoRejected.EndlessLiteralRunIsRejected | bundles/n2n_meyerd/n2n_v1/minilzo.c:3780-3790 | a run length of zeros up to the end of the input is an input overrun there |
| LzoRejected.EndMarkerDecides | bundles/n2n_meyerd/n2n_v1/minilzo.c:4084-4088 | an end marker is Ok exactly at the end of the input, and otherwise says on which side of it it stands |
| LzoRejected.LiteralsBehindTheEnd | bundles/n2n_meyerd/n2n_v1/minilzo.c:4062-4075 | behind the end the unsigned check for one to three literals passes, so they are copied before the missing end is reported |
| LzoTheorems.OutputGrows | bundles/n2n_meyerd/n2n_v1/minilzo.c:3765-4088 | whatever a run has written or read stays written and read until its end |
| LzoFormat.CopyIsPeriodic | bundles/n2n_meyerd/n2n_v1/minilzo.c:4050-4054 | the bytes of an overlapping copy continue the text with the distance as period |
| LzoFormat.CopyReproduces | bundles/n2n_meyerd/n2n_v1/minilzo.c:2950-3003 | the copy for a match found in a text reproduces that text |
| LzoFormat.MatchCode | bundles/n2n_meyerd/n2n_v1/minilzo.c:2959-3045 | the code of a match starts with a match opcode, ends in a byte pair whose first has two free low bits, and is shorter than the match |
| LzoFormat.Encode | bundles/n2n_meyerd/n2n_v1/minilzo.c:2927-2931 | after every match the low bits of op[-2] are zero and at least seven bytes are out, so counting one to three literals there is always possible |
| LzoMachine.Step | bundles/n2n_meyerd/n2n_v1/minilzo.c:3775-4077 | every step from one label to the next keeps the bounds, comes closer to the end, never moves a pointer back, only appends output, and ends with Ok only when exactly the input has been consumed |
| LzoMachine.Decompress | bundles/n2n_meyerd/n2n_v1/minilzo.c:3718-4106 | every run on a non-empty input ends, with at most the capacity written, and with Ok only at the end of the input |
| LzoDecompress.DecompressSafe | bundles/n2n_meyerd/n2n_v1/minilzo.c:3718-4106 | in both builds status, reported length and output are those of the machine on every exit, nothing behind the reported length is touched, and after Ok no read was behind the input |
| LzoDecompress.CopyFour | bundles/n2n_meyerd/n2n_v1/minilzo.c:4040-4045 | four bytes copied at once are four single copies when source and destination are at least four apart |
| LzoDecompress.CopyMatchWide | bundles/n2n_meyerd/n2n_v1/minilzo.c:4037-4047 | under the guards t >= 6 and op - m_pos >= 4 the wide copy leaves the output of the overlapping copy |
| LzoDecompress.CopyMatchByByte | bundles/n2n_meyerd/n2n_v1/minilzo.c:4050-4054 | the byte loop leaves the output of the overlapping copy and nothing behind it |
| LzoDecompress.Decoder.CopyLiteralsWide | bundles/n2n_meyerd/n2n_v1/minilzo.c:3797-3811 | the wide literal copy appends the next t + 3 input bytes, like the narrow one |
| LzoDecompress.Decoder.ReadLength | bundles/n2n_meyerd/n2n_v1/minilzo.c:3780-3790 | the loop over zero bytes reads the 255-run or reports the end of the input |
| LzoDecompress.Decoder.DoLabel | bundles/n2n_meyerd/n2n_v1/minilzo.c:3775-4077 | the code from one label to the next is one step of the machine |
| LzoDecompress.Decoder.Execute | bundles/n2n_meyerd/n2n_v1/minilzo.c:3760-4106 | the whole body with its gotos ends, in the machine's final state |
| LzoDecoding.ReadRunDecodes | bundles/n2n_meyerd/n2n_v1/minilzo.c:3012-3022 | reading takes back a 255-run |
| LzoDecoding.FewLiteralsDecode | bundles/n2n_meyerd/n2n_v1/minilzo.c:4062-4075 | one to three literals counted in the low bits of ip[-2] decode |
| LzoAccepted.EmitDecodes | bundles/n2n_meyerd/n2n_v1/minilzo.c:3777-3822 | a header and its literals decode to these literals |
| LzoAccepted.StopDecodes | bundles/n2n_meyerd/n2n_v1/minilzo.c:3988-3989 | the end marker, in any of its spellings, ends the run with Ok |
| LzoAccepted.FirstStarts | bundles/n2n_meyerd/n2n_v1/minilzo.c:3765-3773 | 1 to 238 literals announced in the first byte of a stream are decoded |
| LzoStreams.CodeOfMatch | bundles/n2n_meyerd/n2n_v1/minilzo.c:2959-3045 | the compressor's code for a match, with any literal count folded into it, is the code of the form it chooses |
| LzoStreams.TranslationStands | bundles/n2n_meyerd/n2n_v1/minilzo.c:2921-3047 | a phrase list translates into instructions with the same bytes and the same meaning |
| LzoStreams.StreamIsSpelled | bundles/n2n_meyerd/n2n_v1/minilzo.c:3058-3109 | every stream of the compressor's format is the spelling of a proper program with the same meaning |
| LzoStreams.MatchCodeIsShortest | bundles/n2n_meyerd/n2n_v1/minilzo.c:2959-3045 | none of the forms M2, M3 and M4 that fits a match has a shorter code than the one the compressor writes |
| LzoTheorems.StreamDecodes | bundles/n2n_meyerd/n2n_v1/minilzo.c:3765-4088 | so the stream of any well-formed phrase list and tail decodes to its expansion |
| LzoCompress.LookupIsSound | bundles/n2n_meyerd/n2n_v1/minilzo.c:2838-2872 | whatever the dictionary holds, an accepted match has an offset of 1 to 0xbfff and equal bytes, and a far one has at least four |
| LzoCompress.RoundIsValid | bundles/n2n_meyerd/n2n_v1/minilzo.c:2838-3049 | a round of the loop keeps the phrases an exact account of the text covered |
| LzoCompress.RoundsAreValid | bundles/n2n_meyerd/n2n_v1/minilzo.c:2838-3049 | so does the whole loop |
| LzoCompress.EncodeSize | bundles/n2n_meyerd/n2n_v1/minilzo.c:2923-2948 | code never exceeds its text by more than a sixteenth |
| LzoCompress.StreamSize | bundles/n2n_meyerd/n2n_v1/minilzo.c:3075-3105 | a stream has at most n + n/16 + 4 bytes |
| LzoSearch.Hash1IsSum | bundles/n2n_meyerd/n2n_v1/minilzo.c:2846 | the primary hash is the xor of the four shifted bytes, plus a thirty-second of it, modulo the size of the dictionary |
| LzoSearch.Hash2Fields | bundles/n2n_meyerd/n2n_v1/minilzo.c:2853 | the secondary hash has a high bit, the upper six of eleven bits of the primary one, and its lowest five flipped |
| LzoSearch.PrimaryDecides | bundles/n2n_meyerd/n2n_v1/minilzo.c:2846-2872 | a position in the primary slot that is near, or has the same fourth byte, is the match if and only if its first three bytes are those of the text |
| LzoSearch.SecondaryDecides | bundles/n2n_meyerd/n2n_v1/minilzo.c:2853-2872 | a far position with another fourth byte leaves the decision to the secondary slot, with the same condition |
| LzoSearch.OthersAreIgnored | bundles/n2n_meyerd/n2n_v1/minilzo.c:2848-2849 | an entry that is no position of this text in range, such as one left over, is no match |
| LzoSearch.RoundEntersPosition | bundles/n2n_meyerd/n2n_v1/minilzo.c:2914-2922 | after every round the slot used last holds the position just tried, match or not, and no other slot has changed |
| LzoSearch.RepeatedByteParse | bundles/n2n_meyerd/n2n_v1/minilzo.c:2838-3049 | whatever the dictionary holds, a text of 19 or more equal bytes becomes four or five literals and one match up to the end |
| LzoSearch.RepetitionIsCompressed | bundles/n2n_meyerd/n2n_v1/minilzo.c:3058-3109 | so n equal bytes take at most n/255 + 13 bytes from 19 on, and n + 4 for 14 to 18 |
| LzoSearch.RepetitionWithoutHistory | bundles/n2n_meyerd/n2n_v1/minilzo.c:3058-3109 | with a dictionary of no use the bytes are exactly those of five literals, a match at distance 1 and the end marker, and for 14 to 18 those of literals |
| LzoSearch.ShortTextsAreLiteral | bundles/n2n_meyerd/n2n_v1/minilzo.c:3065-3066 | texts of up to 13 bytes are never searched: they are one announced literal run and the end marker |
| LzoSearch.LiteralsOnly | bundles/n2n_meyerd/n2n_v1/minilzo.c:3075-3105 | without any phrase up to 238 literals are announced in the first byte, and more have the header of a run |
| LzoCompress.FindMatch | bundles/n2n_meyerd/n2n_v1/minilzo.c:2846-2872 | the two probes, all of whose reads are in range, find what the lookup function says |
| LzoCompress.ExtendMatch | bundles/n2n_meyerd/n2n_v1/minilzo.c:2950-2998 | the unrolled comparisons and the loop find the length of the longest agreement |
| LzoCompress.EmitLiterals | bundles/n2n_meyerd/n2n_v1/minilzo.c:2923-2946 | the output is extended by the literals with their count folded in or in front |
| LzoCompress.EmitMatch | bundles/n2n_meyerd/n2n_v1/minilzo.c:2959-3045 | the output is extended by the code of the match |
| LzoCompress.EmitPhrase | bundles/n2n_meyerd/n2n_v1/minilzo.c:2921-3047 | after an accepted match the output is the code of the phrases including the new one |
| LzoCompress.DoCompress | bundles/n2n_meyerd/n2n_v1/minilzo.c:2823-3055 | the output is the code of the phrases of the parse, and the bytes left over are counted |
| LzoCompress.EmitTail | bundles/n2n_meyerd/n2n_v1/minilzo.c:3075-3105 | the bytes left over and the end marker complete the stream |
| LzoCompress.Compress | bundles/n2n_meyerd/n2n_v1/minilzo.c:3058-3109 | what is written is the stream of the parse, within the size bound, for any leftover dictionary |
| Adler.DeferredReduction | bundles/n2n_meyerd/n2n_v1/minilzo.c:2310-2312 | one reduction at the end of a block equals a reduction after every byte |
| Adler.BlockFits | bundles/n2n_meyerd/n2n_v1/minilzo.c:2279 | 5552 bytes do not overflow 32 bits from any 16-bit start values |
| Adler.BlocksAreAsLargeAsPossible | bundles/n2n_meyerd/n2n_v1/minilzo.c:2279 | 5552 is the largest such length: from reduced start values a block of that many largest bytes fits, and one byte more does not |
| Adler.SumsWrapAround | bundles/n2n_meyerd/n2n_v1/minilzo.c:2278 | the base is 65521: sums stay below it, 65520 is kept, and one more wraps to zero |
| Adler.KnownChecksum | bundles/n2n_meyerd/n2n_v1/minilzo.c:2288-2316 | the packed checksum of a known text |
| Adler.ChecksumAppends | bundles/n2n_meyerd/n2n_v1/minilzo.c:2288-2316 | the per-byte checksum of a concatenation continues that of its first part |
| Adler.Adler32Appends | bundles/n2n_meyerd/n2n_v1/minilzo.c:2288-2316 | the same for the packed 32-bit values |
| Adler.Block | bundles/n2n_meyerd/n2n_v1/minilzo.c:2299-2312 | a block, sixteen bytes at a time and then singly, computes the per-byte checksum without overflow |
| Adler.Adler32 | bundles/n2n_meyerd/n2n_v1/minilzo.c:2288-2316 | the checksum of a buffer is the per-byte one from any 32-bit start value, and 1 for no buffer |
| TwofishBlock.DecryptEncrypt | bundles/n2n_meyerd/n2n_v1/twofish.c:784-882 | for every S-box and subkey array, decryption of a block takes back encryption |
| TwofishBlock.EncryptDecrypt | bundles/n2n_meyerd/n2n_v1/twofish.c:784-882 | and encryption takes back decryption |
| TwofishBlock.DecryptAllUndoes | bundles/n2n_meyerd/n2n_v1/twofish.c:812-855 | the double rounds with subkeys running down undo those with subkeys running up |
| TwofishBlock.EncryptAllUndoes | bundles/n2n_meyerd/n2n_v1/twofish.c:812-855 | and the other way round |
| TwofishBlock.BlockCrypt16 | bundles/n2n_meyerd/n2n_v1/twofish.c:784-882 | the loops over running subkey indexes compute these permutations |
| TwofishPaper.EncryptIsTwofish | bundles/n2n_meyerd/n2n_v1/twofish.c:784-882 | for tables that compute a function g, and any subkeys, block encryption is the cipher of sections 4.1 and 4.2 of the Twofish paper: sixteen single rounds with whitening, and the last swap undone |
| TwofishPaper.DecryptIsTwofish | bundles/n2n_meyerd/n2n_v1/twofish.c:784-882 | block decryption finds the plaintext of this cipher |
| TwofishPaper.CiphertextIsUnique | bundles/n2n_meyerd/n2n_v1/twofish.c:784-882 | this definition gives every block exactly one ciphertext |
| TwofishPaper.DoubleRound | bundles/n2n_meyerd/n2n_v1/twofish.c:842-857 | a pass of the loop is two single rounds |
| TwofishPaper.AllRounds | bundles/n2n_meyerd/n2n_v1/twofish.c:838-857 | the eight passes are the sixteen rounds |
| TwofishPaper.KeyedEncryptionIsTwofish | bundles/n2n_meyerd/n2n_v1/twofish.c:555-643 | in the key state of a user key, the cipher is that of the function g of the code words |
| TwofishPaper.GIsH | bundles/n2n_meyerd/n2n_v1/twofish.c:904-945 | this g is the function h of section 4.3.5 for 256-bit keys, with each byte permuted by q0 and q1 in its order |
| TwofishPaper.RhoIsRepeated | bundles/n2n_meyerd/n2n_v1/twofish.c:585-590 | the running argument of the subkeys is n repeated in all four bytes |
| TwofishPaper.SubKeysAreTwofish | bundles/n2n_meyerd/n2n_v1/twofish.c:581-598 | the expanded subkeys are those of section 4.3: a sum, and a sum rotated by nine |
| TwofishKeys.F32IsG | bundles/n2n_meyerd/n2n_v1/twofish.c:904-945 | the direct function, with permutations and key words written out case by case, is the function g of the paper for every key length |
| TwofishKeys.ColumnStages | bundles/n2n_meyerd/n2n_v1/twofish.c:606-642 | a column of g is the nest of stages that the cases run on through |
| TwofishKeys.FillEntry | bundles/n2n_meyerd/n2n_v1/twofish.c:606-642 | the separately written cases of the table fill leave one entry of each column of g, and change nothing else |
| TwofishKeys.FillSBox | bundles/n2n_meyerd/n2n_v1/twofish.c:600-642 | the loop leaves every entry of all four columns filled |
| TwofishKeys.Fe320Agrees | bundles/n2n_meyerd/n2n_v1/twofish.c:947-952 | for every key and word the lookup in filled tables is the direct function |
| TwofishKeys.Fe323Agrees | bundles/n2n_meyerd/n2n_v1/twofish.c:954-959 | the rotated lookup is the direct function of the word rotated by a byte |
| TwofishKeys.Fe32Agrees | bundles/n2n_meyerd/n2n_v1/twofish.c:961-966 | the general lookup at 0 and 3 is the two specialised ones |
| TwofishKeys.FillSubKeys | bundles/n2n_meyerd/n2n_v1/twofish.c:581-598 | the loop leaves the forty subkeys that the definition of the key schedule asks for |
| TwofishReedSolomon.RsRemDivides | bundles/n2n_meyerd/n2n_v1/twofish.c:112 | a step divides by the generator polynomial of the code: the coefficients move up, and the leading one is taken out |
| TwofishReedSolomon.AlphaInverse | bundles/n2n_meyerd/n2n_v1/twofish.c:112 | its two products are multiplication and division by the same field element |
| TwofishReedSolomon.RsWordIsRemainder | bundles/n2n_meyerd/n2n_v1/twofish.c:884-902 | the code word is the remainder of the polynomial with the eight coefficients of the two words, moved up by four degrees, on division by the generator |
| TwofishReedSolomon.RsEncode | bundles/n2n_meyerd/n2n_v1/twofish.c:892-902 | the loops compute this code word |
| TwofishKeys.SplitKey | bundles/n2n_meyerd/n2n_v1/twofish.c:565-579 | the loop splits the key bytes into even and odd words and the code words in reverse order |
| TwofishKeys.KeyBytes | bundles/n2n_meyerd/n2n_v1/twofish.c:565-577 | the even and odd words consist of their bytes of the key, least significant first |
| TwofishKeys.SBoxWordsAreRemainders | bundles/n2n_meyerd/n2n_v1/twofish.c:578 | the code words, the last pair of key words first, are the Reed-Solomon remainders of these pairs |
| TwofishKeys.MakeSubKeys | bundles/n2n_meyerd/n2n_v1/twofish.c:555-643 | for the 32 bytes of a user key, both lookups agree with the direct function for every word, and all subkeys are in place |
| TwofishCbc.CbcRoundTrip | bundles/n2n_meyerd/n2n_v1/twofish.c:679-702 | chained decryption takes back chained encryption for whole blocks |
| TwofishCbc.UnstolenRestores | bundles/n2n_meyerd/n2n_v1/twofish.c:703-752 | the chained ciphertext can be recovered from the stolen one |
| TwofishCbc.CtsRoundTrip | bundles/n2n_meyerd/n2n_v1/twofish.c:646-752 | with stealing, every text of more than one block comes back, of any length |
| TwofishCbc.CbcByBlocks | bundles/n2n_meyerd/n2n_v1/twofish.c:679-702 | each block of a chained ciphertext is the encryption of its plaintext block xor the ciphertext block before it, and the first one that of its plaintext block |
| TwofishCbc.CtsByBlocks | bundles/n2n_meyerd/n2n_v1/twofish.c:703-752 | with stealing, the ciphertext is the chained one of the zero-padded text with its last two blocks exchanged, cut to the length of the text |
| TwofishCbc.RawRoundTrip | bundles/n2n_meyerd/n2n_v1/twofish.c:222-274 | raw decryption undoes raw encryption for more than 16 bytes, gives the zero-padded text for up to 16, and so the exact text if and only if it is empty or has at least 16 bytes |
| TwofishCbc.OneByteIsNotRestored | bundles/n2n_meyerd/n2n_v1/twofish.c:212-219 | a text of one byte comes back with fifteen zeros behind it |
| TwofishCbc.CbcOnto | bundles/n2n_meyerd/n2n_v1/twofish.c:679-702 | chained encryption takes back chained decryption for whole blocks |
| TwofishCbc.CtsOnto | bundles/n2n_meyerd/n2n_v1/twofish.c:646-752 | encryption takes back decryption too, so stealing permutes the texts of each length over one block |
| TwofishCbc.RawOnto | bundles/n2n_meyerd/n2n_v1/twofish.c:222-274 | a raw ciphertext is that of its plaintext if and only if it is empty or has at least 16 bytes |
| TwofishCbc.StealOnEncrypt | bundles/n2n_meyerd/n2n_v1/twofish.c:740-752 | the code's way of stealing on encryption is the defined one |
| TwofishCbc.StealOnDecrypt | bundles/n2n_meyerd/n2n_v1/twofish.c:708-739 | the code's way of undoing it is the defined one |
| TwofishStream.FlushBehind | bundles/n2n_meyerd/n2n_v1/twofish.c:755-782 | storing a block and flushing the one before it continues the text without a gap |
| TwofishStream.TwoFish.CryptFullBlock | bundles/n2n_meyerd/n2n_v1/twofish.c:679-702 | a full block is chained to the ones before it; all but the last result block are flushed, and the last one waits in the queue |
| TwofishStream.TwoFish.EncryptPartial | bundles/n2n_meyerd/n2n_v1/twofish.c:740-752 | a partial last block completes the ciphertext with stealing |
| TwofishStream.TwoFish.DecryptPartial | bundles/n2n_meyerd/n2n_v1/twofish.c:708-752 | a partial last block completes the plaintext, whose previous block is decrypted again |
| TwofishStream.TwoFish.DecryptLone | bundles/n2n_meyerd/n2n_v1/twofish.c:708-752 | a partial block with nothing before it decrypts to a block that depends on what an earlier text left behind, followed by its own beginning |
| TwofishStream.LeftoverShows | bundles/n2n_meyerd/n2n_v1/twofish.c:708-739 | that block is the decryption of the partial block completed from the decrypted zero block, xored byte by byte with what was left behind |
| TwofishStream.TwoFish.BlockCrypt | bundles/n2n_meyerd/n2n_v1/twofish.c:670-753 | either of these, and nothing outside the room is written |
| TwofishStream.TwoFish.CryptRawCBC | bundles/n2n_meyerd/n2n_v1/twofish.c:194-210 | queue and flush pointer write, contiguously and once, the bytes of the recursive definition, and the input length is returned |
| TwofishStream.TwoFish.CryptRaw | bundles/n2n_meyerd/n2n_v1/twofish.c:222-274 | both raw functions, for every length; nothing behind the room for the result is written |
| TwofishFrame.HexRoundTrip | bundles/n2n_meyerd/n2n_v1/twofish.c:337-371 | collapsing the hexadecimal form gives back the bytes |
| TwofishFrame.HexIsLowerCase | bundles/n2n_meyerd/n2n_v1/twofish.c:340-358 | a byte is written as its two digits out of 0123456789abcdef, the high one first |
| TwofishFrame.HexadecimalFormIsLowerCase | bundles/n2n_meyerd/n2n_v1/twofish.c:427-430 | so is every byte of an encrypted message in hexadecimal form |
| TwofishFrame.UnhexReadsBothCases | bundles/n2n_meyerd/n2n_v1/twofish.c:359-370 | reading gives the byte for digits of either case |
| TwofishFrame.HeaderLayout | bundles/n2n_meyerd/n2n_v1/twofish.c:416-422 | the header holds salt and length, least significant byte first, and the magic word with its terminating zero |
| TwofishFrame.MagicWordDecides | bundles/n2n_meyerd/n2n_v1/twofish.c:497-507 | a plaintext whose bytes 8 to 15 are not the magic word is empty, and otherwise it is as long as the header says or as there is |
| TwofishFrame.EveryLengthIsBelowTheLimit | bundles/n2n_meyerd/n2n_v1/twofish.c:418-421 | any four length bytes are a length that fits into 32 bits, and the bytes of that length |
| TwofishFrame.BinToHex | bundles/n2n_meyerd/n2n_v1/twofish.c:340-358 | expanding in place, back to front, reads every byte before it is overwritten |
| TwofishFrame.HexToBin | bundles/n2n_meyerd/n2n_v1/twofish.c:359-370 | collapsing in place, front to back, does too |
| TwofishFrame.FrameRoundTrip | bundles/n2n_meyerd/n2n_v1/twofish.c:410-514 | every non-empty message comes back with its length, for every key, salt and leftover state, also through the hexadecimal form and also when it steals from the header block |
| TwofishFrame.EncryptMessage | bundles/n2n_meyerd/n2n_v1/twofish.c:394-436 | header and text, processed as one stream, give the framed ciphertext in the caller's or a new buffer; nothing behind its room is written |
| TwofishFrame.DecryptMessage | bundles/n2n_meyerd/n2n_v1/twofish.c:458-515 | for every length, shorter than a block included, the result is the text the header promises, as far as it is there, or nothing when the magic word does not match; nothing behind the result is written |
| PeerTable.SockEqualIsEquivalence | bundles/n2n_meyerd/n2n_v2/n2n.c:519-537 | sock_equal is an equivalence |
| PeerTable.SockEqualIsSameEndpoint | bundles/n2n_meyerd/n2n_v2/n2n.c:519-537 | equal sockets have the same port and family, and the same four bytes of the address for IPv4 or sixteen for others |
| PeerTable.HashWeighs | bundles/n2n_meyerd/n2n_v2/n2n.c:35-56 | the hash combines vendor and device bytes pairwise and overlaps them with the weights four, two and one |
| PeerTable.StrEqualIsSameString | bundles/n2n_meyerd/n2n_v2/n2n.h:216 | the comparison by strncmp is equality of the bytes in front of the first zero |
| PeerTable.KeyDecides | bundles/n2n_meyerd/n2n_v2/n2n.c:35-56 | the table's key identifies an address if and only if none of its first five bytes is zero |
| PeerTable.DifferentMacsCanShareAKey | bundles/n2n_meyerd/n2n_v2/n2n.c:35-56 | two different addresses can be the same peer to the table |
| PeerTable.Table.Find | bundles/n2n_meyerd/n2n_v2/n2n.c:326-332 | walking the bucket finds the entry of the key, if and only if there is one; for an address without a zero among its first five bytes it has that very address |
| PeerTable.Table.Add | bundles/n2n_meyerd/n2n_v2/edge.c:810 | adds the structure under its key and keeps everything else |
| PeerTable.Table.Elements | bundles/n2n_meyerd/n2n_v2/sn.c:312 | the walk over the table meets every entry exactly once |
| PeerTable.Table.Delete | bundles/n2n_meyerd/n2n_v2/edge.c:879 | removes exactly this structure |
| PeerTable.Table.PurgeBucket | bundles/n2n_meyerd/n2n_v2/n2n.c:426-441 | deleting during the walk over a bucket removes exactly its expired entries |
| PeerTable.Table.Purge | bundles/n2n_meyerd/n2n_v2/n2n.c:426-441 | removes exactly the entries last seen before the given time and returns how many they were |
| EdgeProtocol.StepIsConsistent | bundles/n2n_meyerd/n2n_v2/edge.c:793-1011 | every event keeps the two tables disjoint and well keyed |
| EdgeProtocol.RunIsConsistent | bundles/n2n_meyerd/n2n_v2/edge.c:793-1187 | no key is in both tables in any state a run reaches |
| EdgeProtocol.SocketsOfKnown | bundles/n2n_meyerd/n2n_v2/edge.c:873-885 | an event changes no known peer's socket; a new known peer has the sender of this REGISTER_ACK |
| EdgeProtocol.KnownSocketsWereAcknowledged | bundles/n2n_meyerd/n2n_v2/edge.c:1976-1993 | over whole runs, a known peer's socket is the source of an earlier REGISTER_ACK in the edge's community for that peer's key |
| EdgeProtocol.PeersHaveIntroducedThemselves | bundles/n2n_meyerd/n2n_v2/edge.c:833-885 | every pending peer has sent a PACKET before; every known one a PACKET and later, from its stored socket, a REGISTER_ACK |
| EdgeProtocol.EveryPeerWasQueried | bundles/n2n_meyerd/n2n_v2/edge.c:793-829 | in every reachable state the supernode has been asked for every peer in either table |
| EdgeProtocol.NewcomersAreQueried | bundles/n2n_meyerd/n2n_v2/edge.c:793-829 | only a PACKET brings a new peer into the tables, and exactly one query for it is sent to the supernode |
| EdgeProtocol.RelayedLeavesKnown | bundles/n2n_meyerd/n2n_v2/edge.c:979-1010 | PEER_INFO and relayed packets never change a known peer |
| EdgeProtocol.PromotionConserves | bundles/n2n_meyerd/n2n_v2/edge.c:860-904 | a REGISTER_ACK turns a pending peer into a known one and loses and adds nothing |
| EdgeProtocol.DemotionConserves | bundles/n2n_meyerd/n2n_v2/edge.c:946-1011 | a packet from a known peer loses nothing, and demotes the peer if and only if it came directly from a changed, non-empty socket and not from the broadcast address |
| EdgeProtocol.FramesReachPeerOrSupernode | bundles/n2n_meyerd/n2n_v2/edge.c:1136-1187 | in every reachable state a frame goes either directly to a socket that has acknowledged a registration of the addressed peer, or to the supernode, whatever the destination variable held before |
| EdgeProtocol.SupernodeIsIPv4 | bundles/n2n_meyerd/n2n_v2/edge.c:2106-2161 | in every reachable state the supernode has an IPv4 address |
| EdgeProtocol.PartialCopyReaches | bundles/n2n_meyerd/n2n_v2/edge.c:1186 | the copied socket is the supernode's if and only if that has an IPv4 address or the bytes not copied are there already |
| EdgeLaws.RegisterIsAcknowledged | bundles/n2n_meyerd/n2n_v2/edge.c:1955-1975 | a REGISTER of the community changes no table; it is answered with a REGISTER_ACK to its sender for its address, preceded by one blank REGISTER if and only if it is addressed to this edge and its sender is pending |
| EdgeLaws.EveryRegisterIsAcknowledged | bundles/n2n_meyerd/n2n_v2/edge.c:1955-1975 | over whole runs the acknowledgements sent are exactly those for the REGISTERs received in the community, one each and in order |
| EdgeLaws.OtherCommunitiesAreIgnored | bundles/n2n_meyerd/n2n_v2/edge.c:1916-1928 | a message of another community has no effect |
| EdgeLaws.HandshakeMakesKnown | bundles/n2n_meyerd/n2n_v2/edge.c:1955-1993 | the REGISTER of a waiting edge is acknowledged by the edge it reaches, and the acknowledgement makes that edge a known peer at its socket |
| EdgeLaws.HandshakeIsMutual | bundles/n2n_meyerd/n2n_v2/edge.c:1955-1993 | when the other edge waits as well it registers back at once, is acknowledged too, and comes to know the first |
| EdgeLaws.FramesGoDirectlyIff | bundles/n2n_meyerd/n2n_v2/edge.c:1154-1163 | a frame goes directly if and only if its peer is known, was seen at a positive time, and has not timed out |
| EdgeLaws.TimedOutPeersAreAskedFor | bundles/n2n_meyerd/n2n_v2/edge.c:1154-1160 | for a frame to a known peer that has timed out, the peer becomes pending again and the supernode is asked once |
| EdgeLaws.PendingPeersAreRetried | bundles/n2n_meyerd/n2n_v2/edge.c:1167-1185 | for a frame to a pending peer, the query or the REGISTERs are repeated if and only if more than five seconds have passed |
| EdgeLaws.DirectPacketsRefresh | bundles/n2n_meyerd/n2n_v2/edge.c:1005-1010 | a packet straight from a known peer at its socket sets the time it was seen, and nothing else |
| EdgeLaws.RelayedPacketsAreAnswered | bundles/n2n_meyerd/n2n_v2/edge.c:979-1010 | a relayed packet of a known peer changes nothing; a REGISTER is sent to the known socket if and only if the packet came from another one |
| EdgeLaws.EmptyAndBroadcastAreIgnored | bundles/n2n_meyerd/n2n_v2/edge.c:958-968 | a packet of a known peer from an empty address or with the broadcast address has no effect |
| EdgeLaws.UnknownSendersBecomePending | bundles/n2n_meyerd/n2n_v2/edge.c:793-829 | the packet of an unknown device makes it a pending peer with empty data, and one query is sent |
| EdgeLaws.PeerInfoIsTaken | bundles/n2n_meyerd/n2n_v2/edge.c:1930-1948 | PEER_INFO gives a pending peer its sockets and timeout, and a REGISTER goes to each |
| EdgeLaws.UnexpectedAnswersAreIgnored | bundles/n2n_meyerd/n2n_v2/edge.c:1930-1993 | PEER_INFO and REGISTER_ACK for a device that is not pending have no effect |
| EdgeLaws.PurgeRemovesExactlyTheExpired | bundles/n2n_meyerd/n2n_v2/edge.c:2859-2864 | a timer removes a peer if and only if 60 seconds have passed since the last purge and the peer was not seen for more than 120 |
| EdgeNode.Edge.EstablishConnection | bundles/n2n_meyerd/n2n_v2/edge.c:793-829 | the handler on the hash tables does what the function on maps says |
| EdgeNode.Edge.SetPeerOperational | bundles/n2n_meyerd/n2n_v2/edge.c:860-904 | likewise; the structure itself moves from one table to the other |
| EdgeNode.Edge.UpdatePeerAddress | bundles/n2n_meyerd/n2n_v2/edge.c:946-1011 | likewise |
| EdgeNode.Edge.CheckPeer | bundles/n2n_meyerd/n2n_v2/edge.c:833-851 | likewise |
| EdgeNode.Edge.FindPeerDestination | bundles/n2n_meyerd/n2n_v2/edge.c:1136-1187 | likewise, with the destination |
| EdgeNode.Edge.ReadPeerInfo | bundles/n2n_meyerd/n2n_v2/edge.c:1930-1953 | likewise |
| EdgeNode.Edge.ReadRegister | bundles/n2n_meyerd/n2n_v2/edge.c:1955-1975 | likewise |
| EdgeNode.Edge.ReadFromIPSocket | bundles/n2n_meyerd/n2n_v2/edge.c:1916-1994 | every message in the edge's community is handled so, and any other changes nothing |
| EdgeNode.Edge.PurgeExpired | bundles/n2n_meyerd/n2n_v2/edge.c:2859-2864 | the purge every 60 seconds, whose result counts the entries lost |
| EdgeNode.Edge.Turn | bundles/n2n_meyerd/n2n_v2/edge.c:2859-2864 | a turn of the event loop is a step of the state machine the invariants are about |
| SupernodeProtocol.RegistrationIsReported | bundles/n2n_meyerd/n2n_v2/sn.c:113-206 | after a registration the entry says what the registration said, new or renewed, although sockets are only overwritten where they differ |
| SupernodeProtocol.OthersAreKept | bundles/n2n_meyerd/n2n_v2/sn.c:884-887 | no other event changes an entry, and only a purge that takes place removes one, exactly when it has expired |
| SupernodeProtocol.TableIsFaithful | bundles/n2n_meyerd/n2n_v2/sn.c:113-206 | over whole runs there is an entry exactly when the latest registration of its key has not been purged since, and it says what that registration said |
| SupernodeProtocol.EntriesReportTheLatestRegistration | bundles/n2n_meyerd/n2n_v2/sn.c:113-206 | and it has one or two sockets, the first of which is sock, and a second exactly when that registration had a local socket |
| SupernodeProtocol.QueryIsAnswered | bundles/n2n_meyerd/n2n_v2/sn.c:535-563 | a query is answered if and only if such a registration exists in the asker's community |
| SupernodeProtocol.EveryReplyReportsTheLatestRegistration | bundles/n2n_meyerd/n2n_v2/sn.c:535-563 | every PEER_INFO ever sent answers an earlier query with what the registration said that was the latest then |
| SupernodeProtocol.UnicastGoesToTheLatestRegistration | bundles/n2n_meyerd/n2n_v2/sn.c:248-287 | a unicast message is forwarded if and only if a registration of its destination is alive from an IPv4 socket, and only to that socket; otherwise it is dropped |
| SupernodeProtocol.BroadcastStaysInTheCommunity | bundles/n2n_meyerd/n2n_v2/sn.c:299-344 | a broadcast goes only to edges whose alive registration is in the sender's community, at their registered sockets |
| SupernodeProtocol.BroadcastReachesTheCommunity | bundles/n2n_meyerd/n2n_v2/sn.c:299-344 | no such edge is left out, unless it has the sender's key |
| SupernodeProtocol.SenderIsLeftOut | bundles/n2n_meyerd/n2n_v2/sn.c:313-314 | the sender is left out in every run if and only if none of the first five bytes of its address is zero |
| SupernodeProtocol.SenderHearsItself | bundles/n2n_meyerd/n2n_v2/sn.c:313-314 | after a device with the same key, a sender registers and is sent its own broadcast |
| SupernodeLaws.GroupsAreRecognised | bundles/n2n_meyerd/n2n_v2/n2n.c:235-243 | the addresses taken for group addresses are exactly that of all devices, those of the IPv4 groups and those of the IPv6 groups |
| SupernodeLaws.GroupPacketsReachTheCommunity | bundles/n2n_meyerd/n2n_v2/sn.c:491-533 | in every run a packet for such an address is sent to every reachable edge of the community with another key, and to no other community |
| SupernodeLaws.OtherPacketsAreNotBroadcast | bundles/n2n_meyerd/n2n_v2/sn.c:491-533 | a packet for any other address is forwarded to one edge or dropped |
| SupernodeLaws.GroupRegistersAreDropped | bundles/n2n_meyerd/n2n_v2/sn.c:571-620 | a REGISTER for a group address sends nothing |
| SupernodeLaws.EveryRegistrationIsAcknowledged | bundles/n2n_meyerd/n2n_v2/sn.c:625-657 | over whole runs the acknowledgements sent are exactly those for the registrations received, in order: to the sender, in its community, with its cookie and address |
| SupernodeLaws.EqualSocketsAreKept | bundles/n2n_meyerd/n2n_v2/sn.c:161-202 | a renewed registration keeps the address of the entry, and replaces exactly the sockets that differ |
| SupernodeLaws.FirstRegistrationIsStored | bundles/n2n_meyerd/n2n_v2/sn.c:129-160 | a first registration is stored as it came |
| SupernodeLaws.ExpiredMessagesAreDropped | bundles/n2n_meyerd/n2n_v2/sn.c:471-475 | a message whose time to live has run out has no effect |
| SupernodeProtocol.UnicastCrossesAndDrops | bundles/n2n_meyerd/n2n_v2/sn.c:248-287 | a run in which one message is forwarded to another community and one for an unknown address is dropped |
| SupernodeProtocol.EdgeLearnsTheRegistration | bundles/n2n_meyerd/n2n_v2/edge.c:1930-1953 | an edge that waits for the peer ends up with the sockets and timeout of that registration and registers with each of them |
| SupernodeNode.Supernode.CreateEdge | bundles/n2n_meyerd/n2n_v2/sn.c:129-160 | the first branch of update_edge on the hash table does what the function on maps says |
| SupernodeNode.Supernode.RenewEdge | bundles/n2n_meyerd/n2n_v2/sn.c:161-202 | so does the second |
| SupernodeNode.Supernode.UpdateEdgeTable | bundles/n2n_meyerd/n2n_v2/sn.c:113-206 | and so does update_edge |
| SupernodeNode.Supernode.AnswerQuery | bundles/n2n_meyerd/n2n_v2/sn.c:535-563 | the QUERY_PEER case likewise |
| SupernodeNode.Supernode.TryForward | bundles/n2n_meyerd/n2n_v2/sn.c:248-287 | try_forward on the hash table likewise |
| SupernodeNode.Supernode.CollectTargets | bundles/n2n_meyerd/n2n_v2/sn.c:312-341 | the walk of try_broadcast collects exactly the targets |
| SupernodeNode.Supernode.TryBroadcast | bundles/n2n_meyerd/n2n_v2/sn.c:299-344 | try_broadcast likewise, one message to each target |
| SupernodeNode.Supernode.ProcessUdp | bundles/n2n_meyerd/n2n_v2/sn.c:471-657 | the message cases likewise; an expired TTL changes nothing |
| SupernodeNode.Supernode.PurgeExpired | bundles/n2n_meyerd/n2n_v2/sn.c:884-887 | the purge likewise |
| SupernodeNode.Supernode.Turn | bundles/n2n_meyerd/n2n_v2/sn.c:884-887 | a turn of the event loop is a step of the state machine the theorems are about |

## Left out

Of the codec:

- The LZO1Y, LZO1Z and COPY_DICT variants, the second copy of `minilzo.c` under `n2n_v2`, and the compiler configuration.
- Integer width of lengths: they are natural numbers, so sums that would wrap in `lzo_uint` are not modelled; the unsigned comparison in `NEED_IP`, which passes behind the end, is.
- Pointers: dictionary entries are arbitrary integers, read as positions relative to the input; input and output are disjoint, and the input is a value.
- The empty input of the decompressor, for which the code reads its first byte without a check.
- Bit operations on bytes whose fields are disjoint are written as sums and remainders.

Of the cipher:

- The contents of the P and MDS tables: they are parameters.
- The filling of the 32 key bytes from the password in `TwoFishInit`, memory allocation failures, and `TwoFishSetOutput`.
- TwofishFrame.DecryptMessage: requires an even number of hexadecimal digits, because for an odd number the code's loop does not stop at the end; and for an input shorter than a block, where the code's count of the bytes behind the header wraps around, that a matching header promises no more than is there.
- TwofishStream.TwoFish.CryptRaw: the input is a value that does not overlap the output, and the output has room up to the next whole block for encryption.

Of the protocol:

- Sockets, `select`, the tap device, logging, the management console, the transforms, and the wire encoding: messages arrive decoded.
- Times are integers, and each event reads the clock once.
- The table's bucket lists are sequences of structures instead of structures linked by `next`; `sglib.h` itself is not part of this model.
- The bytes of a message that is forwarded, and its new header, are not modelled; a broadcast is recorded as the set of its targets, not in the order of the walk.
- REGISTER_SUPER_ACK and the resolution of supernode names: the supernode's socket may change to any IPv4 socket at any time.
- The statistics of the supernode, the TTL of forwarded messages, and the purge of everything at shutdown.
- `purge_peer_list` for plain lists, and the version 1 edge and supernode.
