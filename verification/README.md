# Verified models of the algorithms in the ports collection

This project models six algorithms that the ported programs contain in full, and proves what
they are for.

- **LZMA in pdlzip.**  The range coder with its delayed carries, the symbol code on top of it,
  the decoder with its circular dictionary, and the resumable shell around the decoder.  Whatever
  true parse the optimal parser chooses, coding and decoding give the data back, however the input
  and the output space are cut, and the decoder stops at the stream's last byte.  The in-place
  reversal of the parser's back-links is a part of its own.
- **pdlzip's match finder.**  Binary search trees in a cyclic array, rebuilt at every position,
  with comparisons that start behind the bytes that the two bounds imply.  Every match returned is
  a real earlier occurrence, the trees stay search trees by text and heaps by age, and with a cut
  value of at least the window's size the longest match in the window is never missed.
- **FastLZ.**  Both compressors and both decompressors: round trip, a bound on the output, which
  matches are taken, and what a repeated byte is compressed to.
- **G-Kermit.**  The data-field encoding, the cutting of a file into fields, and the stop-and-wait
  protocol between two stations over channels that lose, repeat or damage packets: it is safe, and
  whatever has been lost it can still succeed while tries are left.
- **LINPACK.**  `dgefa` and `dgesl` (job 0) over exact reals: what the factors mean, and that the
  system is solved exactly when the matrix is nonsingular.
- **STAILQ_SORT.**  The bottom-up merge sort on a linked list with a tail pointer.

Code that the sources write as loops over state is a method on a class or an array here, proved
against functions and predicates on values; the theorems about those are lemmas.  The ghost fields
(`trace`, `hist`, `taken`, `items`, `forest`) say what the concrete fields stand for.

| files | about |
|---|---|
| `Bytes`, `Bits` | the overlapping copy, powers of two, bitwise operations |
| `RangeCoding`, `RangeEncoder`, `RangeDecoder`, `RangeRoundTrip`, `RangeLearning`, `BitTrees` | the bit layer of LZMA |
| `LzmaModel`, `LzmaPrefixCode`, `LzmaHistory`, `LzmaLayout`, `SymbolCost`, `LzmaEncoder`, `LzmaDecoder` | symbols, what their state and slots mean, and the two programs that write and read them |
| `DryRun`, `LzmaDummy`, `LzmaStreams`, `LzmaProgress`, `LzmaShell`, `LzmaRoundTrip` | dry runs, streams, the resumable decoder, the round trip |
| `LzmaParse` | path reversal in the optimal parser |
| `MatchTree`, `CyclicTree`, `MatchWalk`, `MatchForest`, `MatchHash`, `MatchIndex`, `MatchFinder`, `MatchChoice` | the match finder |
| `FastLzFormat`, `FastLzCompressor`, `FastLzDecompressor` | FastLZ |
| `KermitQuoting`, `KermitPacking`, `KermitStation`, `KermitSafety`, `KermitProgress` | G-Kermit |
| `LinearSolve`, `Linpack` | LINPACK |
| `MergeOrder`, `TailQueue` | the merge sort |

`dafny verify dfyconfig.toml` checks all of it.

## Model

| member | source | states |
|---|---|---|
| RangeRoundTrips.RoundTrip | archivers/pdlzip/LzmaEnc.c:266-330 | any adaptive and direct bits over any number of probabilities, coded and flushed, are read back bit for bit; the first byte is 0, exactly the bytes written are read, and the reader's code ends at 0 |
| RangeCoding.Inverse | archivers/pdlzip/LzmaDec.c:27-35 | a reader aligned with the coder reads every decision as it was coded and ends aligned, for any list of decisions whose final interval the bytes point into |
| RangeCoding.StepInverse | archivers/pdlzip/LzmaDec.c:27-35 | one bit with its scaling step is read as coded, and coder and reader are aligned again |
| RangeCoding.SplitInverse | archivers/pdlzip/LzmaDec.c:334-342 | for an adaptive and for a direct bit alike, 32-bit arithmetic included, the registers give the bit that narrowed the interval and stand for what is left of it |
| RangeCoding.WithinBefore | archivers/pdlzip/LzmaEnc.c:309-330 | intervals are nested: bytes that point into the interval after a bit point into the one before it |
| RangeCoding.Code | archivers/pdlzip/LzmaEnc.c:309-330 | one shift per bit is enough to bring the range back to 2^24, and probabilities stay in 31..2017 |
| RangeLearning.LearnsWhatItSees | archivers/pdlzip/LzmaEnc.c:309-330 | the bit just coded gets no less of any range the next time its probability is used, and strictly more except where its share is 2017/2048 already |
| RangeLearning.RunCost | archivers/pdlzip/LzmaEnc.c:309-330 | from any probability and any registers, n equal decisions with one probability take at most 193 + n/64 shifts |
| RangeRoundTrips.WriteSame | archivers/pdlzip/LzmaEnc.c:266-330 | a bit repeated n times from a fresh probability is written in at most 198 + n/64 bytes |
| RangeEncoders.CarryAddsOne | archivers/pdlzip/LzmaEnc.c:266-286 | a carry through the delayed byte and its run of 0xFF adds exactly one to the number that they stand for |
| RangeEncoders.RangeEncoder.ShiftLow | archivers/pdlzip/LzmaEnc.c:266-286 | bytes written, bytes delayed and `low`, read as one number, are multiplied by 256; a byte of 0xFF without a carry is delayed and any other releases the run |
| RangeEncoders.RangeEncoder.EncodeBit | archivers/pdlzip/LzmaEnc.c:309-330 | the registers go on standing for the interval that all bits coded so far select, and no carry can run past the delayed byte |
| RangeEncoders.RangeEncoder.EncodeDirectBits | archivers/pdlzip/LzmaEnc.c:294-307 | the same for the bits of a value, highest first, each halving the range |
| RangeEncoders.RangeEncoder.FlushData | archivers/pdlzip/LzmaEnc.c:287-292 | five shifts write out exactly the number that the registers stood for, in 5 bytes more than there were shifts |
| RangeDecoders.RangeDecoder.GetBit | archivers/pdlzip/LzmaDec.c:27-35 | normalisation and split give the next decision of the abstract reader, and the probability learns unless this is a dry run |
| RangeDecoders.RangeDecoder.GetDirectBit | archivers/pdlzip/LzmaDec.c:334-342 | the subtraction and its sign give the next decision of the abstract reader for a direct bit, and the registers follow |
| RangeDecoders.RangeDecoder.InitRc | archivers/pdlzip/LzmaDec.c:688-694 | the code starts as the big-endian number of bytes 1 to 4 |
| LzmaStreams.CodedReads | archivers/pdlzip/LzmaDec.c:27-35 | from any valid probabilities: first byte 0, all decisions read back, all bytes and no more taken in, code 0 at the end |
| LzmaStreams.StreamReads | archivers/pdlzip/LzmaEnc.c:1352-1364 | the same for the decisions of a whole LZMA stream with its end marker |
| BitTrees.PathsDiverge | archivers/pdlzip/LzmaEnc.c:423-435 | walks to different leaves of a bit tree part at a question that both ask |
| BitTrees.ReverseNodeInjective | archivers/pdlzip/LzmaEnc.c:437-448 | a value coded lowest bit first is determined by the leaf reached |
| BitTrees.PathBits | archivers/pdlzip/LzmaEnc.c:423-435 | a walk gives the digits of its leaf, highest first, each asked at the node that the digits before it lead to |
| BitTrees.ReverseBits | archivers/pdlzip/LzmaEnc.c:437-448 | a value coded in reversed order goes out lowest bit first |
| BitTrees.DirectBits | archivers/pdlzip/LzmaEnc.c:294-307 | direct bits go out highest first |
| BitTrees.MatchWindow | archivers/pdlzip/LzmaEnc.c:343-355 | after each shift the match byte shows the bit that selects the next of its probabilities |
| LzmaEncoders.LzmaEncoder.FastPosInit | archivers/pdlzip/LzmaEnc.c:38-52 | the table filled size class by size class holds the slot of every distance below 2048 |
| LzmaEncoders.LzmaEncoder.GetPosSlot | archivers/pdlzip/LzmaEnc.c:54-64 | for every distance below 2^27 the look-up, shifted for 128 and above, gives its slot |
| LzmaEncoders.SlotShift | archivers/pdlzip/LzmaEnc.c:54-56 | the shift chosen by 32-bit subtraction brings the distance into the table and the slot grows by twice the shift |
| LzmaPrefixCode.SlotUnique | archivers/pdlzip/LzmaEnc.c:1543-1567 | a distance lies in the interval of no slot but its own |
| LzmaModel.SlotInterval | archivers/pdlzip/LzmaDec.c:303-370 | every distance lies in the interval of its slot, so slot and footer give it back |
| LzmaPrefixCode.MarkerSlot | archivers/pdlzip/LzmaEnc.c:1352-1364 | the end marker's distance 0xFFFFFFFF has slot 63 and a footer of thirty bits |
| LzmaPrefixCode.DistancesDiverge | archivers/pdlzip/LzmaEnc.c:1543-1567 | different distances, the marker's among them, are coded by decisions that part at a shared question |
| LzmaPrefixCode.LensDiverge | archivers/pdlzip/LzmaEnc.c:490-511 | different lengths are coded by decisions that part at a shared question |
| LzmaPrefixCode.SymbolsDiverge | archivers/pdlzip/LzmaEnc.c:1450-1599 | prefix property: in any state, two different symbols part at a question that both ask |
| LzmaPrefixCode.SymbolUnique | archivers/pdlzip/LzmaDec.c:140-435 | bytes from which the decisions of a symbol are read cannot be read as any other symbol |
| LzmaPrefixCode.LiteralFits | archivers/pdlzip/LzmaEnc.c:682-682 | the literal coder chosen by position and previous byte lies inside the probability table |
| LzmaLayouts.SlotTells | archivers/pdlzip/LzmaDec.c:80-115 | the slot of every decision tells the question and what it depends on: state, low bits of the position, previous byte, length class, size class, and behind a copy the byte that would have gone on with it; so no two questions or contexts share a probability |
| LzmaHistories.StateTells | archivers/pdlzip/LzmaEnc.c:217-220 | the state number tells, of the symbols so far, the kind of the last copy, whether another copy came right before it, and how many literals have followed, up to three |
| LzmaHistories.RepsTell | archivers/pdlzip/LzmaEnc.c:1520-1571 | the four distances kept are those of the four matches used last, the latest first |
| LzmaHistories.NewestOrder | archivers/pdlzip/LzmaEnc.c:1520-1571 | bringing each match used to the front lists every match used, once, in the order of their last uses |
| LzmaEncoders.LzmaEncoder.LitEncodeMatched | archivers/pdlzip/LzmaEnc.c:343-355 | the loop over shifted symbol and match byte writes the walk through the matched-literal tree |
| LzmaEncoders.LzmaEncoder.LenEncode | archivers/pdlzip/LzmaEnc.c:490-511 | a length is written by its choice bits and the walk through the low, middle or high tree |
| LzmaEncoders.LzmaEncoder.EncodeDistance | archivers/pdlzip/LzmaEnc.c:1543-1567 | a distance is written by its slot, its direct bits and its reversed low bits |
| LzmaEncoders.LzmaEncoder.EncodeDecision | archivers/pdlzip/LzmaEnc.c:1480-1599 | for any choice that is true of the data, the decisions written are those of the symbol and state and repeated distances follow the symbol |
| LzmaEncoders.LzmaEncoder.FullFlush | archivers/pdlzip/LzmaEnc.c:1352-1364 | the end marker and the flush complete the number that all decisions select |
| LzmaEncoders.LzmaEncoder.Encode | archivers/pdlzip/LzmaEnc.c:1450-1599 | whatever true parse is chosen, the bytes are the stream of its symbols, and playing these back gives the data |
| SymbolCost.SymbolInputBound | archivers/pdlzip/LzmaDec.h:11-14 | with probabilities in 31..2017 and range at least 2^24, reading any one symbol with its final normalisation takes at most 20 bytes |
| SymbolCost.SymbolAffordable | archivers/pdlzip/LzmaDec.c:162-421 | no symbol has more adaptive and direct decisions than the bound of 20 bytes allows |
| SymbolCost.TwentyThree | archivers/pdlzip/LzmaDec.h:11-12 | a longest match at distance 64 has 23 adaptive decisions, where the header counts on 22 at most |
| SymbolCost.InputBound | archivers/pdlzip/LzmaDec.h:11-14 | as many decisions as that bound allows take at most 20 bytes, by a lower bound on the range after each of them |
| DryRun.SymbolDistinct | archivers/pdlzip/LzmaDec.c:497-685 | no symbol asks for the same probability twice |
| DryRun.DryEquals | archivers/pdlzip/LzmaDec.c:57-66 | so reading without updating probabilities follows the same decisions with the same registers |
| DryRun.Extends | archivers/pdlzip/LzmaDec.c:57-66 | what is decided within the bytes in hand is decided the same way by any longer input |
| LzmaDummies.TryDummy | archivers/pdlzip/LzmaDec.c:497-685 | the dry run changes no probability, names the kind of the next symbol, and fails exactly when that symbol with its final normalisation takes more bytes than are given |
| LzmaStreams.ShortMeansShort | archivers/pdlzip/LzmaDec.c:497-685 | bytes on which the dry run failed are too few for the symbol that the full input holds |
| LzmaDecoders.LzmaDecoder.WrapAround | archivers/pdlzip/LzmaDec.c:827-828 | starting again at the front of the dictionary keeps it holding the last dicBufSize bytes of the output |
| LzmaDecoders.LzmaDecoder.CopyMatch | archivers/pdlzip/LzmaDec.c:387-417 | the straight and the wrapping copy both append what copying byte by byte from the full history would, and the dictionary goes on holding the last dicBufSize bytes |
| LzmaDecoders.StraightTestRight | archivers/pdlzip/LzmaDec.c:397-397 | the 32-bit test that selects the straight copy is right at every position exactly when the dictionary has at most 2^32 - 273 bytes |
| LzmaDecoders.LzmaDecoder.CopyBytes | archivers/pdlzip/LzmaDec.c:437-461 | the copy of the owed bytes appends the same history |
| LzmaDecoders.LzmaDecoder.WriteRem | archivers/pdlzip/LzmaDec.c:437-461 | owed bytes are paid as far as the limit, and the state with everything paid is unchanged |
| LzmaDecoders.LzmaDecoder.AcceptMatch | archivers/pdlzip/LzmaDec.c:371-417 | a distance is refused exactly when it reaches back before the output or out of the dictionary; else as much is copied as fits and the rest is owed |
| LzmaDecoders.LzmaDecoder.DecodeSymbol | archivers/pdlzip/LzmaDec.c:162-421 | the decisions read are those of the symbol returned, state, repeated distances and output are its effect, and a refusal has one of the stated reasons |
| LzmaDecoders.LzmaDecoder.DecodeReal | archivers/pdlzip/LzmaDec.c:140-435 | a run of symbols is read and carried out, at least one of them, until the output limit, the input limit or the marker |
| LzmaDecoders.LzmaDecoder.DecodeReal2 | archivers/pdlzip/LzmaDec.c:463-487 | stopping once at the edge of the first fill and paying owed bytes does not change what the symbols put out |
| LzmaStreams.SymbolsFollow | archivers/pdlzip/LzmaDec.c:140-435 | whatever symbols are read from a genuine stream are its first symbols |
| LzmaProgress.GenuineTraced | archivers/pdlzip/LzmaDec.c:696-813 | a decoder fed a genuine stream in pieces never takes more than the stream, and at the marker it has all of it and code 0 |
| LzmaProgress.GenuineNoFault | archivers/pdlzip/LzmaDec.c:696-813 | a genuine stream, whole, cut short or with bytes behind it, gives no ground for refusal |
| LzmaProgress.GenuineShort | archivers/pdlzip/LzmaDec.c:747-795 | a decoder that holds bytes back and asks for more has not been given the whole stream |
| LzmaShells.LzmaShell.TempTurn | archivers/pdlzip/LzmaDec.c:779-808 | topping up the held-back bytes, decoding one symbol from them and giving back what it did not need uses the input exactly; the look-ahead is never negative |
| LzmaShells.LzmaShell.DirectTurn | archivers/pdlzip/LzmaDec.c:747-778 | decoding straight from the input takes no more than there is, or holds all of it back when it is less than the next symbol |
| LzmaShells.LzmaShell.DecodeToDic | archivers/pdlzip/LzmaDec.c:696-813 | bytes taken, bytes held back, symbols and output go on belonging together; the status tells the truth, and a refusal means that the input has a fault |
| LzmaShells.LzmaShell.DecodeToBuf | archivers/pdlzip/LzmaDec.c:815-855 | exactly the new output is delivered to the caller's buffer, and the call ends with the buffer full, the marker or all input used |
| LzmaShells.LzmaShell.Genuine | archivers/pdlzip/LzmaDec.c:815-855 | fed any prefix of a stream, or all of it and more, the decoder has put out only the coder's bytes, has all of them at the marker, and asks for more only before the stream's end |
| LzmaRoundTrips.LzipDecode | archivers/pdlzip/main.c:558-590 | streaming equals batch: for every way of cutting input and output space, the loop ends at the marker with the coder's bytes and exactly the stream consumed |
| LzmaRoundTrips.RoundTrip | archivers/pdlzip/LzmaEnc.c:1450-1599 | every byte string, coded by any parse that is true of it and decoded from a file with anything behind the stream, comes back, and decoding stops at the stream's end |
| LzmaParses.StepsReach | archivers/pdlzip/LzmaEnc.c:646-680 | the steps told by back-links that point strictly backwards, compressed forms included, are non-empty and their lengths add up to the index they started from |
| LzmaParses.Parser.Backward | archivers/pdlzip/LzmaEnc.c:646-680 | after the reversal in place the links lead from 0 forwards by exactly the steps that the back-links told, and the first one is returned |
| LzmaParses.Parser.NextOptimum | archivers/pdlzip/LzmaEnc.c:692-698 | each later call hands out the next step until the plan is used up |
| LzmaParses.Parser.HandOut | archivers/pdlzip/LzmaEnc.c:646-698 | all choices of a plan come out in order, each of positive length, and the lengths add up to the index |
| MatchTrees.Sandwich | archivers/pdlzip/LzFind.c:271-325 | a text between two texts that share their first bytes with a third shares them too, which is why those bytes need no comparison |
| MatchTrees.InsertedKeeps | archivers/pdlzip/LzFind.c:271-325 | insertion keeps a search tree by text that is a heap by age, without duplicates, whatever the cut value |
| MatchTrees.MatchesGenuine | archivers/pdlzip/LzFind.c:271-325 | every match met on the way is a real earlier occurrence within the limit and the window |
| MatchTrees.MatchesRise | archivers/pdlzip/LzFind.c:271-325 | each match is longer than those before it and than the length asked for |
| MatchIndexes.MatchesComplete | archivers/pdlzip/LzFind.c:271-325 | a search that may visit as many nodes as the tree is high ends with a match as long as the longest that any position of the tree offers |
| MatchIndexes.InsertedLoses | archivers/pdlzip/LzFind.c:271-325 | an insertion with as many turns as the tree is high keeps every position but at most one, which agrees with the new one up to the limit |
| MatchIndexes.IndexedInserted | archivers/pdlzip/LzFind.c:447-492 | after an insertion all three tables know every position of the window: the small ones a position of its hash that is no older, and, with a cut value of at least the window's size, a tree that holds it or a later one with the same text |
| MatchIndexes.NothingMissed | archivers/pdlzip/LzFind.c:447-492 | with such tables a search finds two (three) bytes in common with the latest position of their hash, and the longest match of four bytes or more in the window |
| CyclicTrees.RewireSplits | archivers/pdlzip/LzFind.c:271-325 | the pointer updates in the cyclic array leave the two parts of the tree, split by the new text, in the two cells of the new position |
| CyclicTrees.RewireFrame | archivers/pdlzip/LzFind.c:271-325 | no cell outside the tree searched and the new position is written |
| MatchWalks.WalkIsRewire | archivers/pdlzip/LzFind.c:271-375 | on an array that holds a search tree, the walk through the array returns exactly the matches of the tree and leaves exactly the rewired tree, although the first min(len0, len1) bytes are never compared |
| MatchWalks.EarlierStays | archivers/pdlzip/LzFind.c:271-375 | as long as every entry is an earlier position or out of the window, the walk never leaves the text, whatever the array holds |
| MatchFinders.GetMatchesSpec1 | archivers/pdlzip/LzFind.c:271-325 | on any array on which the walk stays in the text, the loop leaves the array of the walk and returns the matches on the way |
| MatchFinders.SkipMatchesSpec | archivers/pdlzip/LzFind.c:327-375 | on any such array the loop without matches leaves the array of the same walk |
| MatchFinders.SearchAndSkipAgree | archivers/pdlzip/LzFind.c:271-375 | on equal arrays of earlier positions, whether they hold a search tree or not, search and skip leave equal arrays, for any cut value and starting length |
| MatchForests.ForestInsert | archivers/pdlzip/LzFind.c:447-492 | putting a position into the tree of its bucket keeps every tree of the shared array in order |
| MatchForests.PruneExact | archivers/pdlzip/LzFind.c:271-325 | cutting a tree off at the first position out of the window loses no position that is still in it |
| MatchForests.ForestAge | archivers/pdlzip/LzFind.c:377-380 | one position later the array still holds the trees, without what fell out of the window |
| MatchForests.ForestRenumber | archivers/pdlzip/LzFind.c:205-226 | subtracting from all positions, with what is too old set to empty, keeps the forest |
| MatchFinders.MatchFinder.Normalize | archivers/pdlzip/LzFind.c:219-226 | positions are renumbered before they outgrow 32 bits, and what the tables say stays true |
| MatchFinders.MatchFinder.SetLimits | archivers/pdlzip/LzFind.c:101-123 | until posLimit no table wraps, no position overflows, and the look-ahead covers the match limit |
| MatchFinders.MatchFinder.CheckLimits | archivers/pdlzip/LzFind.c:228-236 | at the limit, renumbering, reading on, wrapping and new limits bring the whole invariant back |
| MatchHashes.Hash2Tells | archivers/pdlzip/LzFind.c:31-35 | with equal first bytes, equal two-byte hashes mean equal second bytes, whatever the CRC table |
| MatchHashes.Hash3Tells | archivers/pdlzip/LzFind.c:31-35 | with equal first bytes, equal three-byte hashes mean that the next two bytes are equal |
| MatchFinders.MatchFinder.ShortMatches | archivers/pdlzip/LzFind.c:447-492 | the two- and three-byte hits, of which one byte is compared, are real, and the last one ends at the limit or before a byte that differs |
| MatchFinders.MatchFinder.GetMatches | archivers/pdlzip/LzFind.c:447-492 | every pair returned is a real earlier occurrence within window and limit and lengths strictly rise; for any cut value nothing longer than three bytes is missed in a tree no higher than it, with one of at least the window's size nothing in the whole window, and matches of two or three bytes with the latest position of their hash are never missed; all tables are true and complete again one position on |
| MatchFinders.MatchFinder.Skip | archivers/pdlzip/LzFind.c:573-587 | the same invariant after any number of positions skipped: none of them is missing from the tables |
| MatchChoices.FoundIsTrue | archivers/pdlzip/LzmaEnc.c:571-605 | a match found can be coded as it stands, and playing it back extends the history by the true text |
| FastLzCompressors.MatchPays | archivers/fastlz/fastlz.c:303-380 | every match pays for its own bytes and the next count byte, a far one because it is longer |
| FastLzCompressors.HashTells | archivers/fastlz/fastlz.c:102-102 | the hash depends on all three bytes: with equal first two, equal hashes mean third bytes with the same low five bits |
| FastLzCompressors.TryMatch | archivers/fastlz/fastlz.c:195-251 | a match is found exactly if there is a run, at level 2, or the place in the table is another one, near enough, with the first three bytes equal, or five for a far one; unless there is a run the table then holds the new place |
| FastLzCompressors.Extend | archivers/fastlz/fastlz.c:261-289 | a match goes on to the first byte that differs, which is passed, or to within two bytes of the end; the end of the input is reached exactly for a far match found 13 bytes before it of which twelve bytes agree |
| FastLzCompressors.Turn | archivers/fastlz/fastlz.c:180-395 | one turn of the main loop takes the match that is offered, as long as it is, and enters three places into the table, or writes one literal |
| FastLzCompressors.Close | archivers/fastlz/fastlz.c:291-301 | patching the count byte, or dropping it, turns what is written into whole tokens |
| FastLzCompressors.PutMatch | archivers/fastlz/fastlz.c:303-380 | at both levels, split, long and far matches are tokens that play back the same bytes |
| FastLzCompressors.TakeMatch | archivers/fastlz/fastlz.c:255-390 | tokens and pending literals go on standing for the input read; the second hash at the match boundary reads past the input exactly for such a far match |
| FastLzCompressors.CompressLevel | archivers/fastlz/fastlz.c:166-418 | for length at least 1, the block's tokens play back the input, in at most n + n/32 + 1 bytes; n equal bytes take at most 12 + 3 * (n/262 + 1) at level 1 and 15 + n/255 at level 2 |
| FastLzCompressors.DocumentedSuffices | archivers/fastlz/fastlz.h:47-48 | the documented space, 66 bytes or 5% more than the input, is enough for n + n/32 + 1 bytes |
| FastLzCompressors.Compress | archivers/fastlz/fastlz.c:130-138 | the same with the level chosen by the length |
| FastLzDecompressors.CopyBack | archivers/fastlz/fastlz.c:478-525 | the overlapping copy equals copying byte by byte, and nothing behind it changes |
| FastLzDecompressors.MatchTurn | archivers/fastlz/fastlz.c:435-526 | whatever the input, nothing is written from maxout on; a match token of a block is carried out, or refused exactly when it does not fit |
| FastLzDecompressors.MatchInside | archivers/fastlz/fastlz.c:438-463 | in a genuine block every byte read for a match lies inside it |
| FastLzCompressors.FarExample | archivers/fastlz/fastlz.c:372-376 | twelve bytes, 8179 zeros, the same twelve bytes and one more: such a far match is taken 13 bytes before the end, for any twelve bytes and any last one |
| FastLzDecompressors.TruncatedMatch | archivers/fastlz/fastlz.c:438-463 | the first two turns on the damaged block 0, 65, 32: the literal is copied, and the match behind it reads a fourth byte |
| FastLzDecompressors.DecompressLevel | archivers/fastlz/fastlz.c:420-549 | a block is decompressed exactly if its output fits, else 0 is returned; never is anything written from maxout on |
| FastLzDecompressors.Decompress | archivers/fastlz/fastlz.c:140-152 | the level is taken from the first byte, with the same promise |
| FastLzDecompressors.RoundTrip | archivers/fastlz/fastlz.c:140-162 | for every input of length at least 1 and both levels, decompressing into exactly the input's length returns the length and the input |
| KermitQuoting.CharRead | comms/gkermit/gkermit.c:790-806 | one encoded character is read back whatever follows it, and is not taken for a repeat count |
| KermitQuoting.DecodedEncoded | comms/gkermit/gkermit.c:810-875 | decoding undoes encoding for every sequence of groups |
| KermitQuoting.FieldPrintable | comms/gkermit/gkermit.c:763-807 | encoded data holds no control character, so neither a NUL nor a packet terminator, and no 8th bit where 8th-bit prefixes are used |
| KermitQuoting.Shortest | comms/gkermit/gkermit.c:790-806 | nothing is prefixed without need: every other way to write a character in printable bytes that decode reads as that character is longer |
| KermitQuoting.Decode | comms/gkermit/gkermit.c:810-875 | the loop writes exactly what the field stands for, and fails exactly on a prefix with nothing behind it |
| KermitPacking.Packer.Encode | comms/gkermit/gkermit.c:763-807 | characters are counted or put out as groups; after a run of two, osize marks the place between them if the first fits |
| KermitPacking.Packer.GetPkt | comms/gkermit/gkermit.c:693-743 | a field holds whole groups of the file in order, is at most maxlen long unless what was kept is longer, and ends early only before the end of the file or a group that does not fit; two groups are kept exactly before a character that comes exactly twice and has no room even once; one character is lost exactly if the bytes kept already fill the field and a run comes next |
| KermitPacking.PackFile | comms/gkermit/gkermit.c:693-743 | for every maxlen that spar admits the fields are non-empty, printable and decodable one by one; if maxlen is larger than what can be kept (6 bytes with 8th-bit and repeat prefixes, 4 with repeat prefixes alone) they are at most maxlen long and together give the file |
| KermitPacking.FileRoundTrip | comms/gkermit/gkermit.c:693-743 | for every binary file and every such maxlen, decoding the successive fields writes the file back |
| KermitPacking.LossyRun | comms/gkermit/gkermit.c:714-741 | for every quoting with repeat prefixes and every admitted maxlen up to what can be kept there is a file of which getpkt loses one character, and one field is as long as what can be kept |
| KermitPacking.RemainOverfilled | comms/gkermit/gkermit.c:696-740 | for a file of four bytes and maxlen 8, six bytes and a NUL go into the six cells of `remain` |
| KermitStations.Kermit.Input | comms/gkermit/gkermit.c:225-276 | the packet with the current number goes to the table; anything else, a timeout included, repeats the last packet or asks again, up to the retry limit |
| KermitStations.Kermit.Gwart | comms/gkermit/gproto.c:80-286 | each state takes its action of the switch on the packet's kind, for both sides |
| KermitSafety.SufferInOrder | comms/gkermit/gkermit.c:225-254 | losing, repeating or damaging a packet leaves a channel that holds old copies before current ones |
| KermitSafety.EventKeeps | comms/gkermit/gproto.c:80-286 | every event of the two stations and the channels keeps the protocol's invariant |
| KermitSafety.NoConfusion | comms/gkermit/gkermit.c:256-260 | although numbers go modulo 64, a station acts on no packet but the one that is due |
| KermitSafety.InvSafe | comms/gkermit/gproto.c:80-286 | the invariant implies that what was written is a prefix of what was sent, and is all of it once the sender has succeeded |
| KermitSafety.RunSafe | comms/gkermit/gproto.c:80-286 | every state of every run is safe in that sense |
| KermitProgress.TriesRunOut | comms/gkermit/gkermit.c:553-570 | when the time runs out again and again a station sends the same packet each time, as often as it has tries left of ten, and then gives up and says so |
| KermitProgress.RequestHelps | comms/gkermit/gkermit.c:287-299 | a receiver that has heard nothing starts the exchange again by its request to repeat |
| KermitProgress.CanSucceed | comms/gkermit/gproto.c:80-286 | from every state that the invariant allows with tries left, even if everything on the way is lost, the transfer can still succeed, with all files written |
| KermitSafety.Prepare | comms/gkermit/gkermit.c:693-743 | fields made by getpkt meet the theorem's premise for every admitted maxlen, and stand for the original files if maxlen is larger than what can be kept |
| LinearSolve.StepsProduct | benchmarks/linpack/linpack.c:253-369 | eliminating all columns and then multiplying is multiplying and then eliminating the result |
| LinearSolve.SameSolutions | benchmarks/linpack/linpack.c:442-470 | eliminating matrix and right-hand side alike keeps exactly the solutions |
| LinearSolve.TriangleNonsingular | benchmarks/linpack/linpack.c:461-469 | an upper triangle takes only the zero vector to zero exactly when there is no zero on its diagonal |
| Linpack.Idamax | benchmarks/linpack/linpack.c:832-875 | the index of the first entry of largest absolute value, or -1 without entries |
| Linpack.PivotColumn | benchmarks/linpack/linpack.c:253-369 | the multipliers stored clear the pivot column and are at most 1 in absolute value |
| Linpack.FactorStep | benchmarks/linpack/linpack.c:253-369 | a step, skipped or not, goes on taking the original columns to the stored ones |
| Linpack.Dgefa | benchmarks/linpack/linpack.c:253-369 | multipliers and pivots take the original columns to the stored triangle; its diagonal is free of zeros exactly when the matrix was nonsingular; info is 0 exactly when the matrix was nonsingular, or, if its first column is all zeros, exactly when the matrix without its first row and column was |
| Linpack.FirstColumn | benchmarks/linpack/linpack.c:253-369 | the first diagonal entry of the factor is zero exactly when the first column of the matrix was all zeros |
| Linpack.Dgesl | benchmarks/linpack/linpack.c:433-470 | with job 0 and no zero on the diagonal, the vector left satisfies A*x = b for the original A and b |
| Linpack.Solve | benchmarks/linpack/linpack.c:253-470 | factor and solve succeed exactly for nonsingular matrices, and then A*x = b |
| Linpack.InfoMisleads | benchmarks/linpack/linpack.c:308-309 | for a matrix of one zero, info is 0 although the diagonal entry is zero |
| TailQueues.Queue.InsertTail | archivers/unzip/queue.h:115-120 | through the tail pointer the element becomes the last one, in an empty list too |
| TailQueues.Queue.RemoveHead | archivers/unzip/queue.h:157-162 | the rest of the list remains, and an emptied list has its tail pointer at the head again |
| TailQueues.MergeRuns | archivers/unzip/queue.h:196-221 | the inner loop moves the stable merge of two runs to the end of the result, relinking every element |
| TailQueues.SortPass | archivers/unzip/queue.h:182-222 | one pass leaves the pairwise merge of all runs, and counts the pairs |
| TailQueues.StailqSort | archivers/unzip/queue.h:170-226 | for a non-empty list and a total preorder: sorted, stable, the same elements, and a tail pointer that addresses the last link |
| MergeOrder.MergeSorted | archivers/unzip/queue.h:209-213 | merging two stable runs, the earlier first on a tie, gives a stable run |
| MergeOrder.PassRuns | archivers/unzip/queue.h:182-222 | a pass turns runs of sz elements into runs of twice as many |
| MergeOrder.PassContents | archivers/unzip/queue.h:182-222 | a pass keeps the elements and how often each occurs |

## Findings

Where the code does not do what its documentation or its callers expect, the model keeps the code.
Each row names what states the exact condition, and an input if there is one.

| where | what happens | when, exactly | stated by |
|---|---|---|---|
| benchmarks/linpack/linpack.c:309 | `info` is 0 for a singular matrix, as for a nonsingular one: the column number is 0-based, so a zero first pivot is reported as 0 | if the first column is all zeros and the matrix without its first row and column is nonsingular; for every other matrix `info == 0` means "nonsingular" | `Linpack.Dgefa`, `Linpack.FirstColumn`, `Linpack.InfoMisleads` |
| comms/gkermit/gkermit.c:736 | seven cells of the six of `remain` are filled | with 8th-bit and repeat prefixes on, a field ends before a character that comes exactly twice, takes three bytes each time and has no room even once | `KermitPacking.Packer.GetPkt` (`PairLeft`), `KermitPacking.RemainOverfilled` |
| comms/gkermit/gkermit.c:719, 732 | a field that starts full returns while a run is being counted, and the next one starts counting anew: a character is lost; a field that starts with more than maxlen bytes is sent as it is | the bytes kept fill the field and a run comes next; over all files, if and only if repeat prefixes are on and maxlen is at most 6 with 8th-bit prefixes, or 4 without (packets of 10 to 12 bytes with a block check of 3, 10 or 11 with one of 2, 10 with one of 1) | `KermitPacking.Packer.GetPkt` (`Loses`), `KermitPacking.PackFile`, `KermitPacking.LossyRun` |
| archivers/fastlz/fastlz.c:372-376 | the level-2 compressor hashes one byte behind the input; the value cannot influence the output, because no match is looked for after it | a far match is taken 13 bytes before the end, and twelve bytes agree | `FastLzCompressors.Extend`, `FastLzCompressors.TakeMatch` (`FarToTheEnd`), `FastLzCompressors.FarExample` |
| archivers/fastlz/fastlz.c:438-463 | the decompressors read behind the input | the bytes of a match end behind it (`MatchEnd`), which no compressed block has | `FastLzDecompressors.ReadMatch1`, `FastLzDecompressors.ReadMatch2`, `FastLzDecompressors.MatchInside`, `FastLzDecompressors.TruncatedMatch` |
| archivers/pdlzip/LzmaDec.c:397 | the sum of position and length wraps in 32 bits, and the straight copy is taken where the source wraps | for some position, if and only if the dictionary has more than 2^32 - 273 bytes; lzip.h allows 2^27 | `LzmaDecoders.StraightTestRight` |
| archivers/pdlzip/LzmaDec.h:12 | the comment counts at most 22 adaptive bits in a symbol; a match with slot 12 or 13 and a long length has 23 | the bound of 20 bytes holds all the same, as such a symbol has no direct bits | `SymbolCost.TwentyThree`, `SymbolCost.SymbolInputBound` |

## Left out

LZMA encoder:

- `GetOptimum`, `GetOptimumFast` and the price tables: they choose a parse; here any parse that is true of the data is coded.
- The output buffer and its flushing to a descriptor (`RangeEnc_FlushStream`): the bytes written are one growing sequence.
- 32-bit wrap of the encoder's `cacheSize`, which would need four gigabytes of delayed bytes: it is unbounded.
- The encoder's separate probability arrays: they are slots of one table, laid out as in the decoder.
- lzip headers, trailers and checksums: the stream is modelled up to and with the end marker, and the round trip allows anything behind it as long as there is something, as there always is in a member.

LZMA decoder:

- `LZMA_FINISH_END`: only `LZMA_FINISH_ANY` is modelled, the only mode pdlzip uses.
- LzmaRoundTrips.RoundTrip: dictionaries of more than 2^32 - 273 bytes are excluded, because the code is wrong for them (see the findings).
- The decoder's state after it has refused its input, and how many bytes it had delivered in that call.
- Reads past the given input: they give 0 here, and the contracts show that a run never depends on one; the dry run notes that it has run out at its end instead of returning at once.
- The decoding of the five property bytes, and allocation failure.
- `LzmaDec_DecodeReal` and `LzmaDec_TryDummy` are several methods each, one for each kind of symbol.
- LzmaParses.Parser.Backward: the fields of a node that only hold prices and coder states are not modelled.

Match finder:

- Moving the text to the front of its buffer: the text is indexed by absolute position; `Mf_ReadBlock` reads any amount that satisfies the look-ahead.
- `hash` and `son` are two arrays here; in the source the second follows the first in one block.
- The number of hash bits is a parameter, and the CRC table any 256 values.
- The Bt2, Bt3 and Hc4 finders: `Mf_Init` always selects Bt4.

FastLZ:

- Empty input: `fastlz_compress` returns 0 for it and writes nothing.
- The two expansions of the macro file are one method with the level as parameter; 16-bit copies are copies of two bytes.
- Bytes read behind the input count as 0 (see the findings).

G-Kermit:

- KermitStations.Kermit.Gwart: streaming, text mode, attribute packets, cancellation, the server commands and the parameters carried in acknowledgements are not modelled.
- Block checks and packet framing: a packet arrives good or detectably damaged.
- Fairness of the channels: a run may lose packets for ever; `KermitProgress.CanSucceed` says that success stays possible, not that it comes.
- File naming and the terminal.
- KermitPacking.Packer.Encode: the call of `encode` on itself for the second of two characters is written as the tail of the routine.
- `remain` is a sequence; the sixth cell's limit is a finding.
- The smallest field is 4 bytes: packets of 10 bytes, the least that `spar` accepts, with a block check of 3.

LINPACK:

- Rounding: the arithmetic is exact.
- `dgesl` with job other than 0: its last loop stops before column 0, so it does not solve the transposed system.
- The matrix is a two-dimensional array of columns instead of one array with a stride, and the increments are 1.
- The rolled and unrolled loops are one method each, with the choice as a parameter.

STAILQ_SORT:

- The empty list, for which the macro would leave the tail pointer at a local variable.
- The address of the last link is represented by the element that holds it.
- Overflow of the run length, which would need a list of 2^30 elements.

The other ports of the collection: input, output and option handling, or easier variants of the above.
