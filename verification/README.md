# Verified models of citepd

citepd reads scanned article text, finds the reference area, cuts each reference into words, labels
them and answers with JSON. This project models the data structures and algorithms the service rests
on and proves what each is for.

- **Hash table** (`Primes`, `PrimeSizes`, `Probing`, `KhashFlags`, `Khash`, `KhashTable`, `KhashRuns`):
  the double-hashing map over prime sizes with packed two-bit flags and in-place rehashing. The table
  is a class over arrays; its methods refine a finite map over whole runs. The listed sizes are proved
  prime by certificates, so a probe meets every bucket and every unguarded loop ends.
- **Edit distance** (`EditDistance`, `BandedDistance`, `KeywordFilter`): the matrix methods, the
  shortest edit script, the metric laws, the banded variant and the keyword test that uses them.
- **JSON** (`JsonText`, `JsonParse`, `JsonRoundTrip`, `JsonUnicode`, `JsonMinify`, `JsonStrip`,
  `JsonBuffers`, `JsonNodes`, `JsonPrinter`, `JsonReader`, `JsonMeaning`, `JsonGrammar`, `JsonService`): the
  parser's functions, the grammar of exactly the texts they accept, and their round trip with the printer;
  the buffers written through counted lengths; linked nodes with the list operations; printing and parsing
  on those nodes; minifying in place, which keeps the meaning of every text that parses except a bare
  unclosed string literal; and the composition the service uses.
- **Tags** (`TagWords`, `TagParser`, `WordParse`, `VirtualContent`, `References`): stripping recognised
  tags while recording the open ones in a base-20 word, what becomes of nesting too deep for a word, and
  finding the reference area from those words.
- **Words and chunks** (`Tokenizer`, `TokenCuts`, `SnapshotQueue`, `CitationTokens`): cutting words, where
  a word ends, the two-queue window over the words, and putting labelled words together again.

`Options` holds the one datatype that stands for null pointers and failure codes, `Texts` the reading of
a text with its terminator. Code that the source runs on arrays, matrices, buffers, linked nodes or
fields is modelled on those; each method is proved against a function, and the promises are lemmas about
that function. A `char` stands for one byte, and reading behind the end of a text gives its terminator.
The hash function, the match relation and the tagger are arbitrary functions.

Where the code differs from what its name or comments suggest, the code is followed:

- `editDistanceT` is not a banded version of `editDistanceS`: its border cells stay 0 and its flag
  starts uninitialised. It is the thresholded case-blind distance exactly at thresholds of 0 and below.
  What it computes at every threshold is stated exactly, and no close pair is ever rejected.
- The mark queued in front of a word is not the one its cut finds but one carried on from earlier words;
  where the cut reports none, the source carries on an uninitialised one.
- `tokenPush` accepts 20, which is no base-20 digit, and near the top of the range its guard lets a sum
  wrap; the exact condition under which a pop undoes a push is stated. The parser ignores refused pushes:
  a well-nested text is accepted exactly when every stack on the way has a word. Concrete inputs are given.
- `spilitContent` finds no word in an area that starts with blanks and a negative number, although
  the area holds digits; the exact condition under which a cut fails is stated.
- A text without a recognised tag makes the parser count one entry more than its arrays hold; that is
  the only case.
- The parser takes a string literal that ends with the text instead of a quotation mark; a bare literal
  of that kind cannot be minified; every other text that parses and has complete escapes can.
- `kh_put` does not write the value of a new key; `Put` says the map then holds whatever the bucket held.

Reading order inside each part follows the order of the names above.

## Model

| member | source | states |
|---|---|---|
| Primes.Pocklington | include/khash.h:91-100 | a number with a certificate (a base, a factored part of n-1 above the square root) is prime: the criterion behind the listed sizes |
| PrimeSizes.ListedSizesArePrime | include/khash.h:91-100 | every entry of the prime list except the leading 0 is prime, up to 4294967291 |
| Probing.ProbeInjective | include/khash.h:141-147 | on a prime number of buckets, two different probes fewer than n steps apart are different buckets |
| Probing.ProbeReturns | include/khash.h:144-146 | the probe path is back at its first bucket after exactly n steps |
| Probing.ProbeCovers | include/khash.h:144-146 | every bucket is met within the first n probes |
| Probing.ProbeClosedForm | include/khash.h:141-145 | the increment-with-wrap loop computes (h mod n + t * (1 + h mod (n - 1))) mod n for hash value h |
| KhashFlags.TestsAgree | include/khash.h:102-104 | the three flag tests on a packed word agree with the state of the bucket they are asked for |
| KhashFlags.MarkDeleted | include/khash.h:108 | setting the deleted bit changes exactly one bucket's state: live becomes deleted, the others keep theirs |
| KhashFlags.MarkOccupied | include/khash.h:106 | clearing the empty bit changes exactly one bucket's state |
| KhashFlags.MarkLive | include/khash.h:107 | clearing both bits makes exactly that bucket live |
| KhashFlags.AllEmpty | include/khash.h:131-136 | words of 0xaa bytes decode to buckets that are all empty |
| Khash.RoomForHand | include/khash.h:176-196 | through every step of a resize the new flags keep a free bucket for the entry in hand |
| Khash.KickOut | include/khash.h:186-190 | displacing an unprocessed entry keeps placed keys + key in hand + unprocessed keys equal to the whole map, and every placed key reachable without an empty bucket before it |
| Khash.Settle | include/khash.h:191-195 | placing the entry in hand in an unoccupied bucket keeps the same invariant and empties the hand |
| Khash.PickUp | include/khash.h:172-176 | taking the next unprocessed entry in hand keeps the same invariant |
| Khash.Grows | include/khash.h:157-159 | a put on a table that is more than half full of live keys always finds a larger size with room |
| Khash.BoundBelow | include/khash.h:110-110 | the occupancy bound of a listed size is below that size, so some bucket is empty |
| Khash.BoundIs | include/khash.h:110-110 | the occupancy bound is 0.77 times the size plus one half, rounded down |
| Khash.NextSize | include/khash.h:156-158 | the size chosen is the least listed one above the request |
| KhashTable.FindEmpty | include/khash.h:179-185 | the unguarded inner probe of a resize stops, at the first empty bucket of the path |
| KhashTable.KickOutChain | include/khash.h:177-196 | the kick-out chain ends, with every entry either placed or still unprocessed |
| KhashTable.RehashAll | include/khash.h:171-198 | after the outer loop every key is placed, reachable, and has its value |
| KhashTable.RebuildWith | include/khash.h:161-208 | growing, same-size or shrinking, the key-to-value map is the same and no tombstone is left |
| KhashTable.FindKey | include/khash.h:139-149 | the probe loop finds the bucket of a key exactly when the key is in the map |
| KhashTable.FindSlot | include/khash.h:218-235 | the bucket chosen by a put is the key's own one, or a free one on its path, so no second copy can arise; an absent key gets a deleted bucket exactly when its probe passes one before the first empty bucket |
| KhashTable.ProbePast | include/khash.h:223-229 | the loop of put never comes back to its start, so x never ends as n_buckets |
| KhashTable.Insert | include/khash.h:236-246 | making a free bucket of the path live keeps every key reachable and the map a map |
| KhashTable.Remove | include/khash.h:249-255 | turning a live bucket into a tombstone keeps every other key reachable |
| KhashTable.Table.constructor | include/khash.h:119-121 | a new table stands for the empty map and has no buckets |
| KhashTable.Table.Get | include/khash.h:137-150 | returns n_buckets (0 on a table never sized) exactly when the key is absent, else its live bucket with its value |
| KhashTable.Table.Resize | include/khash.h:151-210 | keeps the map; afterwards either the new size with no tombstones or, when the live keys would not fit, the unchanged table |
| KhashTable.Table.MakeRoom | include/khash.h:214-217 | the resize inside put keeps the map and leaves strict room; it keeps the size, drops the tombstones at the same size, or takes the next listed size above n + 1, as the two guards say |
| KhashTable.Table.Put | include/khash.h:211-248 | the key becomes live, every other key keeps its value, the return code is 0 exactly when it was live already; the size changes, to the next listed one above n + 1, only when the occupied buckets have reached the bound and at least half of the buckets are live |
| KhashTable.Table.PutWithRoom | include/khash.h:218-247 | return code 1 exactly for an empty bucket, which alone raises n_occupied; 2 exactly for an absent key whose probe path had a tombstone before the first empty bucket |
| KhashTable.Table.Delete | include/khash.h:249-255 | removes exactly the key of a live bucket; anything else is left alone |
| KhashTable.Table.Clear | include/khash.h:130-136 | the empty map, with the buckets kept, all of them empty and none occupied |
| KhashTable.Table.SetValue | include/khash.h:288-289 | writing the value of a live bucket changes the map at its key only |
| KhashRuns.Replay | include/khash.h:130-255 | any sequence of stores, lookups, erasures, clears and resizes refines a finite map, lookups included; it stops only in front of a store that would have to grow a table of the last listed size |
| KhashRuns.LastCallDecides | include/khash.h:130-255 | after a run a key has the value of its last store, unless an erasure or a clear came later; a key no call speaks of is as it was |
| KhashRuns.FindsAreAnswered | include/khash.h:137-150 | every lookup of a run is answered, in order, with what the calls before it have left |
| KhashRuns.Perform | include/khash.h:130-255 | one call refines the step of the finite map |
| EditDistance.Neighbours | lib/cite_parser/minEditDistance.c:55-86 | neighbouring cells differ by at most 1, for any match relation |
| EditDistance.AllMoves | lib/cite_parser/minEditDistance.c:55-86 | taking only the diagonal on a match gives the minimum over all three moves |
| EditDistance.NoCheaper | lib/cite_parser/minEditDistance.c:55-86 | no alignment costs less than the cell |
| EditDistance.Attained | lib/cite_parser/minEditDistance.c:55-86 | some alignment costs exactly the cell |
| EditDistance.DistanceIsLeastCost | lib/cite_parser/minEditDistance.c:55-86 | for any match relation the last cell is the least cost of an alignment |
| EditDistance.NoShorterScript | lib/cite_parser/minEditDistance.c:55-86 | no sequence of insertions, deletions and substitutions that turns one text into the other is shorter than the distance |
| EditDistance.DistanceIsShortestScript | lib/cite_parser/minEditDistance.c:55-86 | the distance is the length of a shortest edit script |
| EditDistance.Triangle | lib/cite_parser/minEditDistance.c:55-121 | the triangle inequality, cell by cell |
| EditDistance.Metric | lib/cite_parser/minEditDistance.c:55-86 | zero iff equal, symmetric, triangle inequality, between the length difference and the longer length |
| EditDistance.FoldedDistance | lib/cite_parser/minEditDistance.c:90-121 | the case-blind distance is the distance of the case-folded texts |
| EditDistance.PseudoMetric | lib/cite_parser/minEditDistance.c:90-121 | the case-blind distance is zero iff the folded texts are equal, symmetric, and keeps the triangle inequality |
| EditDistance.FillMatrix | lib/cite_parser/minEditDistance.c:55-86 | the matrix loops compute the distance for any match relation |
| EditDistance.EditDistance | lib/cite_parser/minEditDistance.c:55-86 | the distance with exact matches |
| EditDistance.EditDistanceS | lib/cite_parser/minEditDistance.c:90-121 | the distance with matches that ignore case |
| EditDistance.EditDistanceP | lib/cite_parser/minEditDistance.c:151-182 | the distance with pattern characters |
| EditDistance.SameIs | lib/cite_parser/minEditDistance.c:48-52 | two characters match without regard to case exactly when they are equal or one is in A to Z and the other 32 above it |
| EditDistance.PatternIs | lib/cite_parser/minEditDistance.c:123-149 | which characters fit each of the ten pattern letters; no other pattern letter fits anything |
| EditDistance.ZeroDistance | lib/cite_parser/minEditDistance.c:55-121 | distance 0 position by position, in characters, for exact and for case-blind matches |
| EditDistance.ZeroPattern | lib/cite_parser/minEditDistance.c:123-182 | a pattern is at distance 0 exactly from the strings of its length whose characters fit its letters |
| EditDistance.PageRange | lib/cite_parser/hftnpse.c:100-100 | the pattern of a page range: two digits, a delimiter, two digits, with digit-like letters taken for digits; 12:34 is one |
| BandedDistance.BandBelow | lib/cite_parser/minEditDistance.c:185-220 | where a cell of the full matrix is within the threshold, the cell of the band is not above it |
| BandedDistance.NoFalseRejection | lib/cite_parser/minEditDistance.c:185-220 | when the case-blind distance is within the threshold, the banded one is not -1 and not above it |
| BandedDistance.FreeBorder | lib/cite_parser/minEditDistance.c:185-220 | at every positive threshold a concrete pair gets the value 0 although its case-blind distance is 1, because border cells stay 0 |
| BandedDistance.ExactOnlyWithoutSlack | lib/cite_parser/minEditDistance.c:185-220 | the banded distance is the thresholded case-blind distance on all pairs exactly at the thresholds 0 and below |
| BandedDistance.BandedIsFreeAlignment | lib/cite_parser/minEditDistance.c:185-220 | what the band computes exactly, at every threshold: the least cost, counted up to 500, of an alignment in the band that may start anywhere on the border |
| BandedDistance.DryToTheEnd | lib/cite_parser/minEditDistance.c:202-214 | behind the threshold, one row with every band cell above the threshold makes all later rows so, for thresholds below 500 |
| BandedDistance.EarlyExitIsRight | lib/cite_parser/minEditDistance.c:202-214 | one such row behind the threshold, at any threshold, settles that the answer is a rejection, so the value the flag starts with cannot matter |
| BandedDistance.RelaxReads | lib/cite_parser/minEditDistance.c:207-211 | a band cell is the same whatever its upper and left neighbours hold, when these are neither on the border nor in the band |
| BandedDistance.EditDistanceT | lib/cite_parser/minEditDistance.c:185-220 | for every initial flag and whatever the cells off the border hold before they are written, the method returns the banded distance: no result depends on a cell outside border and band |
| KeywordFilter.OutsideWindow | lib/cite_parser/hftctl.c:96-141 | a prefix whose length is off by more than the threshold cannot be within the threshold |
| KeywordFilter.ClosestPrefix | lib/cite_parser/hftctl.c:96-141 | the length loop finds the least distance over prefixes of any length, at its shortest prefix |
| KeywordFilter.IsAccepted | lib/cite_parser/hftctl.c:96-141 | true exactly when some prefix of any length is within the threshold of an accepting keyword and at least as close as every prefix to every rejecting keyword; the fitted length is that of the deciding match, and 0 without one only when no keyword of either kind has a prefix within the threshold |
| KeywordFilter.AcceptsIs | lib/cite_parser/hftctl.c:96-141 | acceptance in terms of distances alone |
| KeywordFilter.FirstMatchIs | lib/cite_parser/hftctl.c:96-141 | the fitted match in terms of distances alone: the first keyword that comes as close, at its shortest prefix |
| JsonRoundTrip.ValueText | lib/json/cjson.c:286-506 | in any context whose next character cannot continue a number, parsing printed text returns the tree and stops right behind it |
| JsonRoundTrip.ParsePrinted | lib/json/cjson.c:263-283 | parsing the formatted or unformatted print of a tree returns the same tree, keys, order and duplicates included, and consumes exactly the text |
| JsonRoundTrip.NumberText | lib/json/cjson.c:95-137 | a printed 32-bit integer is read back |
| JsonRoundTrip.StringText | lib/json/cjson.c:154-247 | a printed string is read back |
| JsonGrammar.ParseIff | lib/json/cjson.c:263-277 | parsing succeeds exactly on the texts that spell a tree behind white space, and, when the end is required, with nothing but white space behind it; with that tree and that end |
| JsonGrammar.ValueIff | lib/json/cjson.c:286-298 | a value is found exactly where one is spelled, for arrays, objects, names, numbers and words alike |
| JsonGrammar.NumberIff | lib/json/cjson.c:95-114 | a number is read exactly as its sign, digits, fraction and exponent spell it, as far as they go, with its decimal value |
| JsonText.CharacterPrinted | lib/json/cjson.c:231-245 | how each character of a string is printed |
| JsonText.SamplePrinted | lib/json/cjson.c:301-506 | one nested tree printed in both formats, line by line |
| JsonUnicode.TranscodeUnit | lib/json/cjson.c:139-204 | one escape of a scalar value becomes the UTF-8 bytes that decode to it (section 3 of RFC 3629) |
| JsonUnicode.TranscodePair | lib/json/cjson.c:178-200 | a surrogate pair of escapes becomes the UTF-8 bytes of its scalar value (section 2.2 of RFC 2781) |
| JsonUnicode.EscapesAreWellFormed | lib/json/cjson.c:178-200 | an escape with any digits yields nothing or one well-formed byte sequence |
| JsonUnicode.DroppedEscapes | lib/json/cjson.c:180-188 | which escapes yield nothing: 0, low halves alone, and high halves without a low one |
| JsonUnicode.Utf8Decodes | lib/json/cjson.c:191-199 | the bytes written for a scalar value are its shortest UTF-8 form and decode to it |
| JsonUnicode.TextDecodes | lib/json/cjson.c:191-199 | the UTF-8 form of any sequence of scalar values decodes to that sequence |
| JsonUnicode.LiteralDecodes | lib/json/cjson.c:165-207 | a literal that spells any scalar values, each raw, with a short escape, with one \u escape or with a surrogate pair, is read as their UTF-8 form, which decodes to them, up to and including its closing quotation mark |
| JsonBuffers.TrailMasks | lib/json/cjson.c:194-196 | on 32-bit words, or-ing 0x80 and masking with 0xBF is the continuation byte of the UTF-8 form, and shifting by 6 the quotient it leaves |
| JsonBuffers.FirstByteMasks | lib/json/cjson.c:197-197 | or-ing the first-byte mark of each length adds it to what is left of the scalar value |
| JsonBuffers.SurrogateMasks | lib/json/cjson.c:188-188 | masking, shifting and or-ing the halves of a pair is the sum of their low ten bits in place |
| JsonMinify.MinifyFormatted | lib/json/cjson.c:580-595 | minifying the formatted print of a tree gives exactly its unformatted print |
| JsonMinify.ReducesTree | lib/json/cjson.c:347-506 | the same at every depth and in front of any further text |
| JsonMinify.ReducesQuote | lib/json/cjson.c:592-592 | string literals survive minifying unchanged, escaped quotation marks included |
| JsonMinify.MinifyInPlace | lib/json/cjson.c:580-595 | the in-place loop leaves the minified text and its terminator in the buffer, writing never ahead of reading |
| JsonMinify.MinifyStep | lib/json/cjson.c:585-593 | one round of the loop: what is written, followed by minifying what is unread, is minifying the whole |
| JsonStrip.MinifyStrips | lib/json/cjson.c:580-595 | minifying leaves u of s exactly when s can be taken apart into white space, comments, string literals and other characters so that u is the literals and other characters, in order |
| JsonMeaning.MinifiesIff | lib/json/cjson.c:580-595 | a text with complete escapes that parses as a whole can be minified exactly when it is not a bare string literal without its closing quotation mark |
| JsonMeaning.MinifyKeepsMeaning | lib/json/cjson.c:580-595 | unless it is such a bare unclosed literal, every text with complete escapes that parses can be minified and then parses to the same tree |
| JsonMeaning.TreesKeepTheirMeaning | lib/json/cjson.c:580-595 | in particular every such text whose tree is not a string |
| JsonMeaning.ValueKept | lib/json/cjson.c:286-298 | value by value: what follows a value in the text follows it in the minified text, where the same value is read |
| JsonMeaning.BodyEqual | lib/json/cjson.c:165-207 | parser and minifier agree where a literal ends, and its value is settled by its own characters |
| JsonMeaning.BodyCloses | lib/json/cjson.c:165-207 | a literal that the parser sees closed is closed for the minifier, at the same quotation mark |
| JsonMeaning.NumberSame | lib/json/cjson.c:95-114 | a number is read with the same value from the same characters, whatever stops it |
| JsonMeaning.UnclosedLiteral | lib/json/cjson.c:165-207 | a concrete text the parser takes although its literal is never closed: it has no minified form |
| JsonBuffers.CostIsExact | lib/json/cjson.c:219-219 | the count for one character is the length of its printed form |
| JsonBuffers.PrintString | lib/json/cjson.c:214-247 | the buffer counted beforehand has exactly the length of the quoted text and its terminator |
| JsonBuffers.BodyFits | lib/json/cjson.c:159-204 | with complete escapes the decoded characters never outnumber the count of the first pass |
| JsonBuffers.ParseString | lib/json/cjson.c:154-211 | the two passes decode the literal within the buffer counted by the first one |
| JsonBuffers.PutUtf8 | lib/json/cjson.c:191-199 | the bytes written from last to first are the UTF-8 form |
| JsonNodes.Node.Join | lib/json/cjson.c:514-514 | linking behind the last child keeps both directions of the chain and appends to the tree |
| JsonNodes.Node.Append | lib/json/cjson.c:518-519 | refines appending to the sequence of children, on a node of any kind |
| JsonNodes.Node.AppendNamed | lib/json/cjson.c:520-520 | refines appending a named member, to a parent of any kind |
| JsonNodes.Node.Item | lib/json/cjson.c:510-510 | the child at an index, or null |
| JsonNodes.Node.Detach | lib/json/cjson.c:524-525 | refines removing the child at an index; the child comes back whole, unlinked and apart from the rest |
| JsonNodes.Node.Unlink | lib/json/cjson.c:525-525 | which links change when a child is taken out of the chain |
| JsonNodes.Node.Replace | lib/json/cjson.c:530-533 | refines replacing the child at an index, which is left alone when out of range |
| JsonNodes.Node.Substitute | lib/json/cjson.c:531-533 | the tree, the children and the nodes after a child has made place for another item |
| JsonNodes.Node.Relink | lib/json/cjson.c:532-533 | which links change when another item takes a child's place |
| JsonNodes.Node.Duplicate | lib/json/cjson.c:553-578 | an equal tree of new nodes that shares none with the original, which is unchanged; without recursion a copy of the node alone |
| JsonNodes.KidsDiffer | lib/json/cjson.c:509-534 | children of a valid node are different nodes with disjoint subtrees |
| JsonPrinter.NumberFits | lib/json/cjson.c:121-125 | a printed 32-bit integer and its terminator fit the 21 characters |
| JsonPrinter.PrintNumber | lib/json/cjson.c:117-125 | the decimal text of an integer in a buffer of 21 characters |
| JsonPrinter.PrintItems | lib/json/cjson.c:369-375 | the printed elements and the length counted for them |
| JsonPrinter.ComposeArray | lib/json/cjson.c:390-401 | the length counted for an array is enough for everything written, in both formats and at every depth |
| JsonPrinter.PrintMembers | lib/json/cjson.c:467-475 | the printed names and values and the length counted for them |
| JsonPrinter.ComposeObject | lib/json/cjson.c:489-505 | the length counted for an object is enough for everything written, in both formats and at every depth |
| JsonPrinter.PrintEmpty | lib/json/cjson.c:450-458 | the empty object fits its own buffer |
| JsonPrinter.PrintValue | lib/json/cjson.c:301-316 | printing a tree of nodes renders exactly the text of the tree it stands for |
| JsonPrinter.Print | lib/json/cjson.c:282-283 | the same for the two entry points |
| JsonReader.ReadNumber | lib/json/cjson.c:95-114 | the loops read the number in exact arithmetic |
| JsonReader.ParseArray | lib/json/cjson.c:319-344 | builds a well-formed chain of new children that stands for the parsed array |
| JsonReader.ParseObject | lib/json/cjson.c:405-438 | builds a well-formed chain of new named children that stands for the parsed object |
| JsonReader.ParseValue | lib/json/cjson.c:286-298 | succeeds exactly when the grammar function does, with the same tree and the same end |
| JsonReader.ParseText | lib/json/cjson.c:263-277 | the same for the entry point, with and without the check for trailing text |
| JsonService.PrintedIsEscaped | lib/json/cjson.c:214-247 | no literal of printed text has a cut-off escape, so the parser's buffers are enough for it |
| JsonService.Reply | src/citepd.cc:158-160 | print, then minify in place: the buffer holds the unformatted text, and parsing that returns the tree |
| JsonService.Reread | lib/json/cjson.c:263-283 | printing nodes into buffers and parsing the buffer gives an equal tree of new nodes |
| TagWords.PoppedEncode | lib/cite_parser/tokens.c:95-102 | popping the word of a stack until 0 yields exactly the stack |
| TagWords.PushUndone | lib/cite_parser/tokens.c:83-102 | a pop undoes a push exactly when the number is a digit other than 0 and the longer stack still has a 32-bit word |
| TagWords.PushesNotUndone | lib/cite_parser/tokens.c:83-102 | two concrete pushes that are let through and that no pop undoes: the number 20, and a sum that wraps to 0 |
| TagWords.GuardIsEnough | lib/cite_parser/tokens.c:87-90 | the overflow guard refuses no push whose result has a word |
| TagWords.SevenFit | lib/cite_parser/tokens.c:83-93 | every stack of at most seven tags has a word |
| TagWords.TagStack.Push | lib/cite_parser/tokens.c:83-93 | the three outcomes and the new word, with wrap-around |
| TagWords.TagStack.Pop | lib/cite_parser/tokens.c:95-102 | the last digit and the remaining word |
| TagParser.GetTokenId | lib/cite_parser/virtualcontent.c:132-147 | 0 for a name that is not active or has number 0, else the first number with exactly that name |
| TagParser.NameAtIs | lib/cite_parser/virtualcontent.c:196-237 | the tag taken is the shortest recognised name closed by '>' within the length limit; none is passed over |
| TagParser.NumberIs | lib/cite_parser/virtualcontent.c:132-147 | a number belongs to the name in the text: the first entry with exactly that name |
| TagParser.MarksAreSpelled | lib/cite_parser/virtualcontent.c:196-270 | every recognised tag spells, between its brackets, the name of its number, which is active and has fewer than 20 characters |
| TagParser.SpelledIsMarked | lib/cite_parser/virtualcontent.c:196-270 | no tag is passed over: a spelled tag with an active name of fewer than 20 characters is recognised, unless it starts inside another one |
| TagParser.ScanSucceeds | lib/cite_parser/virtualcontent.c:188-285 | the parse succeeds exactly when every recognised close tag has the number of the innermost open one |
| TagParser.ScanMatches | lib/cite_parser/virtualcontent.c:188-285 | the same from any position with any tags open |
| TagParser.EntriesAreRight | lib/cite_parser/virtualcontent.c:277-281 | kept characters come in increasing order, each with exactly the tags open at its position |
| TagParser.KeptOrTag | lib/cite_parser/virtualcontent.c:188-282 | every position is either kept or inside one recognised tag |
| TagParser.OpenAtIs | lib/cite_parser/virtualcontent.c:277-281 | at a position outside all tags exactly one stack of tags is open |
| TagParser.SevenDeepIsRoomy | lib/cite_parser/virtualcontent.c:264-264 | nesting of at most seven tags leaves room for every push |
| TagWords.NineDoNotFit | lib/cite_parser/tokens.c:83-93 | no stack of nine or more tags has a word |
| WordParse.WordsAgree | lib/cite_parser/virtualcontent.c:188-285 | as long as every stack has a word, the parse on words and the parse on stacks succeed together and keep the same characters with corresponding words |
| WordParse.ParseSucceeds | lib/cite_parser/virtualcontent.c:188-285 | with room, the program accepts exactly the texts in which every recognised close tag has the number of the innermost open one |
| WordParse.WellNestedNeedsRoom | lib/cite_parser/virtualcontent.c:205-264 | a text whose tags all match and are all closed is accepted exactly when every stack on the way has a word, dropped and wrapped pushes included |
| WordParse.DepthDecides | lib/cite_parser/virtualcontent.c:205-264 | such a text is accepted when at most seven tags are ever open at once and refused when nine are |
| WordParse.NestedIsWell | lib/cite_parser/virtualcontent.c:188-285 | one tag opened n times and closed n times is well nested and n deep, for every n and every table that knows the tag |
| WordParse.NineDeepRefused | lib/cite_parser/virtualcontent.c:188-285 | a concrete well-nested text, nine deep, that is refused |
| VirtualContent.VirtualContent.ParseFile | lib/cite_parser/virtualcontent.c:163-286 | for every text the loop stores the kept characters, their positions and their words, and zeros behind them; it fails exactly at a close tag that is not the last digit of the word |
| VirtualContent.ContentIsRight | lib/cite_parser/virtualcontent.c:163-286 | after a successful parse of a text with room for every stack, each stored word pops to the tags open at the stored position, positions increase, and exactly what is not stored lies in a tag |
| VirtualContent.WellNestedContentIsRight | lib/cite_parser/virtualcontent.c:163-286 | for a well-nested text success alone gives that, with nothing known about room |
| VirtualContent.ZeroEntryInside | lib/cite_parser/virtualcontent.c:277-283 | after a successful parse the counted entries lie inside the array exactly when some tag was recognised |
| VirtualContent.PlainText | lib/cite_parser/virtualcontent.c:277-283 | a concrete text without a tag: two entries are counted, the array has one |
| References.GetReferenceHeadOffset | lib/cite_parser/hftctl.c:178-192 | the first counted index whose stack holds RefA, or 0 |
| References.GetReferenceEndOffset | lib/cite_parser/eftfun.c:1714-1739 | the first counted index with an empty stack behind one inside RefA, or 0 |
| References.AreaIsFound | lib/cite_parser/virtualcontent.c:283-283 | when the word of some kept character holds RefA, the head is the first such character, the end is the first later index with word 0, and the head comes before the end; no room is needed |
| References.WordsSpeakOfTags | lib/cite_parser/virtualcontent.c:277-281 | with room, a kept character's word pops to the tags open at its position and is 0 exactly when none is open |
| References.AreaOfTags | lib/cite_parser/virtualcontent.c:283-283 | with room, told from the tags alone: when RefA is open at some kept character, the head is the first character with RefA open and the end the first later one with no tag open |
| WordParse.TagsTakeRoom | lib/cite_parser/virtualcontent.c:277-283 | a successful parse keeps every position exactly when no tag is recognised, and then every word is the one at the start |
| Tokenizer.SplitKeeps | lib/cite_parser/strHandle.c:11-106 | a successful cut takes between 1 and all characters and keeps every letter and digit of them, in order |
| Tokenizer.CollectKeeps | lib/cite_parser/strHandle.c:20-83 | the main loop makes progress and collects every letter and digit it passes |
| Tokenizer.SplitFails | lib/cite_parser/strHandle.c:76-84 | a cut fails exactly when there is no word to start with or the word is longer than the room |
| Tokenizer.NegativeFirst | lib/cite_parser/strHandle.c:22-34 | a concrete area with a digit that yields no word: a blank in front of a negative number |
| Tokenizer.SpilitContent | lib/cite_parser/strHandle.c:11-106 | the loops compute the cut: length, word, next character and both delimiter marks |
| TokenCuts.ClassesAre | lib/cite_parser/strHandle.c:4-9 | the character classes, spelled out |
| TokenCuts.CutIs | lib/cite_parser/strHandle.c:11-106 | every successful cut, told from the characters: the word is what is picked up to the first position where a word can end; the mark behind it, the length, and the marks in front of and behind the word |
| TokenCuts.CollectIs | lib/cite_parser/strHandle.c:20-83 | the main loop stops at the first position where a word ends: the end of the area, a connector in front of a digit, a delimiter that no connector follows, or between a digit and a letter |
| TokenCuts.NeverMixed | lib/cite_parser/strHandle.c:67-71 | no word holds a digit from 2 to 9 beside a letter that is not digit-like |
| TokenCuts.EndsBetween | lib/cite_parser/strHandle.c:67-71 | a word that ends between two letters or digits ends between such a pair |
| TokenCuts.WordIsFiltered | lib/cite_parser/strHandle.c:46-83 | the word is all characters of its part that are neither delimiters nor connectors, exactly unless some character of no class is passed over on the way to a connector |
| TokenCuts.FailsWhen | lib/cite_parser/strHandle.c:22-84 | when a cut fails, told from the characters |
| TokenCuts.Samples | lib/cite_parser/strHandle.c:11-106 | pp23 is cut behind pp, and a sign without a class in front of a hyphen is passed over |
| SnapshotQueue.Queue.constructor | lib/cite_parser/queue.c:4-4 | the empty queue |
| SnapshotQueue.Queue.EnQueue | lib/cite_parser/queue.c:11-20 | appends unless twelve are queued, and never writes the slot at the front, which the last dequeue returned |
| SnapshotQueue.Queue.DeQueue | lib/cite_parser/queue.c:29-37 | removes the oldest element and returns its slot, or null on an empty queue |
| SnapshotQueue.Queue.EnQueueWithDrop | lib/cite_parser/queue.c:22-27 | appends, and drops the oldest element of a full queue first |
| SnapshotQueue.Queue.NextNElem | lib/cite_parser/queue.c:39-47 | the n-th element from the front, or null |
| SnapshotQueue.Queue.PastNElem | lib/cite_parser/queue.c:49-57 | the n-th element from the rear, or null |
| SnapshotQueue.Queue.Size | lib/cite_parser/queue.c:61-65 | the number of queued elements |
| CitationTokens.PredftEnQueue | lib/cite_parser/citpred.cc:270-288 | one more word of the stream is queued with the mark carried on from the words before it, unless the queue is full or the stream has ended |
| CitationTokens.MarksCarry | lib/cite_parser/citpred.cc:418-542 | by indices: the mark in front of a word is the last delimiter reported with the last earlier word that does not end at a blank, and the blank at the start when there is none |
| CitationTokens.StreamIsCut | lib/cite_parser/citpred.cc:282-288 | the words of the stream are cut one behind the other, each with room for 256 characters, up to the first cut that fails |
| CitationTokens.WindowsAre | lib/cite_parser/citpred.cc:609-638 | the windows by indices: the last twelve words before and the next eleven behind |
| CitationTokens.Fill | lib/cite_parser/citpred.cc:617-617 | before the first word is taken the queue is full or holds the whole stream |
| CitationTokens.ProcessWord | lib/cite_parser/citpred.cc:618-638 | one round keeps: done words ++ queued words ++ uncut words is the stream; the queues read around the word hold the last twelve words before it and the next eleven behind it |
| CitationTokens.ProcessWords | lib/cite_parser/citpred.cc:609-638 | every word of the stream is processed once, in order, with exactly its windows of earlier and later words, and its segment recorded |
| CitationTokens.StreamCovers | lib/cite_parser/citpred.cc:282-288 | the words take the whole area exactly when each fits its buffer and the area starts with a word |
| CitationTokens.StreamTiles | lib/cite_parser/citpred.cc:620-627 | the recorded segments tile one contiguous part of the content |
| CitationTokens.Assemble | lib/cite_parser/citpred.cc:1457-1478 | for any labels the chunks join up to the tiled part; each holds words of its label, only the last may be empty, and behind every other one the label changes |
| CitationTokens.CutsAreChanges | lib/cite_parser/citpred.cc:1457-1478 | there is an inner cut at a position exactly when the label there differs from the one before it |
| CitationTokens.CitationInfoPredict | lib/cite_parser/citpred.cc:554-1481 | for any tagger the chunks join up to exactly the part of the content the words take; each holds words of its label, only the last may be empty, behind every other one the label changes, and the last carries the label found behind the last word |

## Left out

- Sockets, processes, command line, the initialisation files, directory traversal and the Java client.
- The SQLite store, the dictionary wrappers around the hash table, and the CRF tagger itself.
- Token features (dictionary flags, abbreviations, year and page heuristics) and the other filters: they branch widely and promise nothing; what they are computed from, each word with its windows, is modelled.
- Allocation failure, allocation hooks and freeing memory: a discarded node or buffer is simply no longer referred to.
- The last entry of the prime list: a table of that size cannot grow, and the source would read behind the list; `Put`, `MakeRoom` and `Replay` stop in front of that case.
- 32-bit overflow of `i + inc` for the two largest bucket counts, and of hash values: bucket indices and hashes are unbounded numbers.
- The bound 0.77 * n + 0.5 in doubles: it is the exact quotient (77 * n + 50) / 100, rounded down.
- Hash tables used as sets (no value array).
- Non-integer numbers in the printer (`%f` and `%e` lose digits), the integer copy kept beside the double, and the error pointer of the parser.
- JsonReader.ReadNumber: exact real arithmetic stands for doubles.
- JsonBuffers.ParseString: requires complete escapes in the literal, as JSON text has; for cut-off ones the count of the first pass is not meant to be enough.
- JsonReader.ParseValue: requires complete escapes behind every quotation mark, for the same reason.
- JsonReader.ParseObject: the same.
- JsonReader.ParseText: the same.
- JsonMeaning.MinifyKeepsMeaning: the same; a cut-off escape may make parser and minifier disagree where a literal ends.
- JsonBuffers.PutUtf8: computes bytes with quotients and remainders of numbers; `TrailMasks`, `FirstByteMasks` and `SurrogateMasks` prove these to be the source's operations on 32-bit words.
- JsonNodes.Node.Append: requires an item put under an object to have a name; the source links an unnamed one too, which prints as no JSON text. Reference items and lookup by name are not modelled.
- JsonNodes.Node.Join: the same for an unnamed item under an object.
- JsonNodes.Node.Substitute: the same.
- JsonNodes.Node.Replace: the same.
- Strings in nodes are values, not shared character arrays, so aliasing of string buffers is not captured.
- JsonReader.ParseArray: complete escapes as above; a child is linked when it has been parsed, not before; on failure the source discards the half-built tree either way.
- JsonMinify.MinifyInPlace: requires string literals and block comments to be closed; the source reads behind the terminator otherwise. For texts that parse, `MinifiesIff` gives the exact condition.
- VirtualContent.ContentIsRight: for a text that is neither well-nested nor roomy the stored words are those `ScanWords` tells, with pushes dropped or wrapped; nothing relates them to the open tags.
- References.GetReferenceHeadOffset: requires the counted entries to lie inside the array, which holds exactly once a tag has been recognised (`ZeroEntryInside`); without one the source looks one entry further.
- References.GetReferenceEndOffset: the same.
- The mode without parsing, text set from memory, and the initialisation of the tag names from a file.
- Tokenizer.SpilitContent: the word is a value, so the fixed buffer appears only as the room it gives; the last delimiter mark is none where the source leaves it unset, and `Stream` carries it on as none.
- CitationTokens.AllFit: counts a word of exactly 256 characters as fitting, as the loop that cuts it does; the source's terminator for such a word would lie one behind its buffer of 256.
- CitationTokens.Assemble: the buffer for one chunk has no size limit here; the source's holds 1024 characters.
- KeywordFilter.IsAccepted: the linked list of keywords is a sequence, no keyword may be shorter than the threshold, and the text must be longer than the longest keyword by more than the threshold; otherwise the source's lengths leave the text.
