# Lambda web server: a verified model

The repository is a runtime that serves AWS Lambda HTTP requests with Lua chunks. This project models its
stateful core in Dafny and proves what that core promises.

- **The hash table** (`Table.dfy`, on `Probing`, `Sizes`, `Keys`, `Queue`, `QueueLaws`, `TableState`, `PlanCost`):
  open addressing with double hashing, relocation on insertion after Brent, tombstones, growth, and a doubly linked list
  whose nodes are the slots. A class with an array of slots is proved to be an insertion-ordered map, or a
  least-recently-used cache when it is capped (`OrderedMap`, `TableRuns`, `TombstoneRuns`). Double hashing needs
  prime sizes; that all 112 listed sizes are prime is proved, not assumed (`Primality`, `SizeCertificates`,
  `SizePrimes`).
- **The codec** (`Base64.dfy`, `Utf8.dfy`): in-place base64 against RFC 4648, the UTF-8 automaton against RFC 3629.
  The bitwise operators of C are defined by binary digits in `Bits`, and base64 is written with them.
- **The streaming sender** (`Streaming.dfy`): the read callback with its three cursors, pauses and end of data, and
  the flushes that drive it, whatever libcurl does with the transfer.
- **Query arguments** (`QueryArgs.dfy`): percent-decoding, and the key/value parser over the Lua stack, against the
  reading of form data.
- **The response body** (`ResponseBody.dfy`), **path substitution** (`Substitution.dfy`) and **the life of Lua
  states** (`Lifecycle.dfy`): growth and truncation, and which chunk runs when.

`SizeCertificates.dfy` and `SizePrimes.dfy` are written by `certificates.py` from the size table of
`src/lws_table.c`; Dafny checks every certificate, so the script need not be trusted.

## How the code is modelled

Values that the source passes by pointer and length are sequences of bytes. Integers are unbounded; where the width
of `size_t`, `lws_uint_t` or `int` matters it is written out (`SIZE_MAX` is that of a 64-bit system). Tables that
the source initializes as arrays of constants (`b64_enc_tbl`, `b64_dec_tbl`, `utf8d`) are written as functions over
ranges, and so are the tests for letters and digits; what they amount to is stated over the characters written out
(`UPPER`, `LOWER`, `DIGITS`, `Base64.ALPHABET`, `QueryArgs.HEX_LOWER`, `QueryArgs.HEX_UPPER`). Slots are named by
their index, and the list's sentinel by -1. Allocation always succeeds. libcurl is an arbitrary caller of the read
callback with buffers that are not empty; a Lua chunk is an arbitrary script that fails to load, or asks for
completion and closing any number of times and then raises an error or returns a value.

## Where the code and its comments or purpose part

- **Lookups stop at tombstones.** `lws_table_find` compares every slot that is not UNUSED, and `lws_table_remove`
  leaves the hash in the slot, and the key and value too unless the table owns them. So a lookup can stop at an entry
  that is gone.
  - *Exactly when.* On a table that owns neither keys nor values, every slot that is not UNUSED stays readable
    (`TableState.Legible`, kept by every operation). Then a get answers as the map does **if and only if** its lookup
    does not stop at a tombstone, and for every key if and only if there is none (`Table.Table.AnswerIsRightIff`,
    `Table.Table.AnswersAreRightIff`). A get, set or removal leaves a table that some order makes valid if and only if
    its lookup does not stop at one, except that a get or a set on a table without a cap always does
    (`Intact` in `Table.Table.Get` and `Table.Table.Put`).
  - *Inputs.* If the lookup stops at the tombstone, a get after a removal or an eviction answers with the removed
    value, a set after a removal does not list the key again, and a second removal is counted again; if it does not,
    all is well. On a table that owns neither keys nor values it does stop there, after an eviction at least when the
    new key's home slot was unused: `TableRuns.GetAfterRemove`, `TableRuns.GetAfterRemoveAndSet`,
    `TableRuns.RemoveTwice`, `TableRuns.GetAfterEviction` and, from an empty table on, `TableRuns.EvictionWitness`.
  - *Where it does not happen.* With the lookup as it is written, the table is the ordered map on every run up to the
    first lookup that stops at a tombstone (`TableRuns.Run`). That is all of a run that removes nothing on a table
    without a cap, as the three header tables are used; and all of a run that removes nothing and sets no more keys
    than the cap on a capped table, as the cache of file statuses is (`TableRuns.RunOfFewKeys`).
  - *And after that.* On a table without a cap that owns neither keys nor values a run can go on past tombstones: what
    meets one leaves the map alone, and a get then answers with the value last set for the key; only the removal of a
    key whose lookup stops at its tombstone breaks the table (`TombstoneRuns.RunPastTombstones`).
  - *Freed memory.* All four tables of the repository own keys or values, and then the source reads memory it has
    freed. In the model a removal from such a table leaves arbitrary bytes, or an arbitrary value, in the tombstone.

  `Table.Table` has a constant `strict`: false is the source's lookup, true one that also asks for a SET slot, **which
  is a deviation from the source**, and with which all runs are those of the map, including eviction and removal.
- **A flush can lose what it flushes.** A call of `lws_stream_response` that does not finish the response returns 0
  when the transfer is paused, and also when libcurl has ended it. So a flush that succeeds has handed out everything
  written before it if it leaves the transfer paused, and otherwise only if libcurl took enough before it ended the
  transfer: `Streaming.Response.Perform` has the exact condition, and `Streaming.LostFlush` the input: libcurl cannot
  connect, and two flushes succeed with not a byte handed out. `lws_finalize_response` then reports the failure; it
  returns 0 exactly if libcurl reports the transfer a success.
- **A load of exactly the largest size.** `lws_table_create` comments that the table's load limit is at least the
  load asked for. `Sizes.CreateMeetsLoad` proves this for every load that gets a table, except for one that equals
  the largest listed size, where it is false.
- **A NUL inside a key** makes comparison and hash disagree, unless it is the last byte: all keys of a length that
  compare equal to a key hash like it if and only if the key has no NUL before its last byte (`Keys.AgreementIff`).
- **The room for encoding** a response body is lost by a seek in one corner case, when the encoded length of the
  body before it does not fit a `size_t`: `ResponseBody.SeekKeepsRoom` has the exact condition.
- **A seek while streaming** behind what has been handed out breaks the stream, and no other does:
  `Streaming.Response.Seek`.
- **An `=` inside a value** ends the value, for the parser takes both separators to end any token. `doc/Library.md`
  promises that it parses form data, whose pieces between `&`s are split at the first `=` only. The parser sets the
  arguments of that reading, in order, **if and only if** between any two `=` of the text stands an `&`
  (`QueryArgs.SetsAreForm`). `QueryArgs.ValueIsCut` is an input: `a=b=c` sets `a` to `b`, and `c` to the empty string.
- **A truncated escape** at the end of a token is dropped. `lws_unescape_url` is percent-decoding as the URL Standard
  defines it, with `+` for a space, if and only if the text does not end in `%`, or in `%` and one hexadecimal digit
  (`QueryArgs.TruncatedIff`).
- **The relocation plan** of `lws_table_insert` is the last find of its scan, which need not be the one with the
  fewest probes. It is, if and only if the scan has not given up a cheaper find for a later one and has not stopped
  short of a cheaper one (`PlanCost.CheapestIff`, with the scan as a function of the slots and the hash);
  `PlanCost.GivesUp` and `PlanCost.StopsShort` are tables of eleven slots with six keys on which it does the one and
  the other. A plan is never worse than plain double hashing, and better whenever an entry moves
  (`TableState.InsertionCost`).

## Model

| member | source | states |
|---|---|---|
| Sizes.TableSize | src/lws_table.c:273-291 | The binary search returns the least listed size that is not below its argument, or none if there is none |
| Sizes.CreateMeetsLoad | src/lws_table.c:48-53 | For which loads a size is found, and that its load limit meets the request if and only if the request is below the largest size |
| Sizes.LoadGrows | src/lws_table.c:293-295 | A larger listed size has a strictly larger load limit, so a rehash makes room |
| Sizes.LoadIsSevenEighths | src/lws_table.c:293-295 | The load limit is seven eighths of the slots, less at most 17 eighths that the shifts drop |
| SizePrimes.ListedIsPrime | src/lws_table.c:22-38 | Every listed size is prime |
| Probing.ProbesDistinct | src/lws_table.c:337-353 | The first alloc probes of any hash meet no slot twice, and the next is the home slot again |
| Probing.ProbesCover | src/lws_table.c:337-353 | They meet every slot, so a lookup that comes round has looked everywhere |
| Probing.ProbeIsRemainder | src/lws_table.c:337-349 | Probe number j is (hash % alloc + j * (hash % (alloc - 2) + 1)) % alloc |
| Keys.Hash | src/lws_table.c:247-271 | The backwards scan computes the hash that is defined from the front |
| Keys.Compare | src/lws_ngx.c:82-100 | The forwards comparison is zero if and only if the folded texts, up to a NUL, agree within n bytes; otherwise the case-insensitive one returns the difference of the first two characters that differ; what folding does is in the next rows |
| Keys.SameIsSpelled | src/lws_table.c:341-346 | Two NUL-free keys are the same to a table if and only if they are the same bytes or, on one that ignores case, the same but for letters A to Z in the other case |
| Keys.HeaderSpellings | src/lws_ngx.h:57 | "Content-Type" and "content-type" are the same key exactly if case is ignored, and "[" and "{" never are |
| Keys.DifferenceIsSigned | src/lws_ngx.c:82-100 | What the comparison returns is the difference of two characters taken as signed |
| Keys.ComparisonAgreesWithHash | src/lws_table.c:247-271 | NUL-free keys that compare equal hash equally, and the table takes two of them for the same exactly if they fold alike |
| Keys.NulBreaksAgreement | src/lws_table.c:341-346 | An instance of the next row: two keys with a NUL in front compare equal and hash differently |
| Keys.AgreementIff | src/lws_table.c:247-271 | All keys of the same length that compare equal to a key hash like it if and only if the key has no NUL before its last byte |
| Keys.MixInjective | src/lws_table.c:256-267 | One step of the hash loses neither the hash so far nor the character mixed in |
| Keys.KnownHashes | src/lws_table.c:250-267 | The hash of "a" is the one published for FNV-1a, that of "A" is the same if case is ignored, and a byte of 200 is mixed in with its sign extended |
| QueueLaws.RemoveUnlinks | src/lws_ngx.h:107-109 | Removing an entry leaves one cycle through the others, in their order |
| QueueLaws.InsertTailLinks | src/lws_ngx.h:86-90 | Inserting at the tail keeps one cycle, with the entry last |
| QueueLaws.InsertHeadLinks | src/lws_ngx.h:80-84 | Inserting at the head keeps one cycle, with the entry first |
| QueueLaws.MoveSlotRelinks | src/lws_table.c:407-413 | Pointing the neighbours of a relocated entry at its new slot keeps one cycle in the same order |
| TableState.FindMeansLookup | src/lws_table.c:333-354 | A lookup that finds a SET slot has found the listed entry of the key, and one that finds nothing means that no listed entry has it |
| TableState.PlanUnique | src/lws_table.c:361-418 | The slots and the hash determine the relocation plan |
| TableState.MovedIsPlaced | src/lws_table.c:382-413 | A relocated entry has no unused slot before it on its own probe path, even if that goes around the table |
| TableState.MadeRoomWellPlaced | src/lws_table.c:356-419 | Insertion keeps every listed entry reachable, whether or not it relocates one |
| TableState.InsertedWellPlaced | src/lws_table.c:191-207 | Filling the slot completes the insertion: the SET slots are those listed, all reachable, with keys and hashes that match |
| TableState.InsertedContents | src/lws_table.c:191-207 | The entries afterwards are those before and the new one, in the same order |
| TableState.InsertionCost | src/lws_table.c:361-418 | All lookups together get at most as much longer as with plain double hashing, and by less whenever an entry is relocated |
| PlanCost.CheapestIff | src/lws_table.c:372-405 | The plan has the fewest probes of all relocations if and only if no probe before the chosen one, and none from where the scan stopped on, has a free slot near enough; as a condition on the slots and the hash alone |
| PlanCost.PlanOfIsPlan | src/lws_table.c:361-418 | Wherever the probes of a hash come to a free slot, the scan, as a recursive function of the slots and the hash, gives the one and only plan |
| PlanCost.CheapestWhen | src/lws_table.c:372-405 | Relocating the entry of the first probe is always the cheapest, and moving one by at most two steps unless a cheaper find was given up |
| PlanCost.GivesUp | src/lws_table.c:388-405 | A table, with the whole slot invariant, on which the scan gives up a find with 4 probes for one with 5 |
| PlanCost.StopsShort | src/lws_table.c:388-405 | A table on which a find with 5 probes stops the scan before one with 4 |
| TableState.RemovedWellPlaced | src/lws_table.c:421-431 | Behind a tombstone all other entries stay reachable, and the list loses just the one entry |
| TableState.FindIsOnly | src/lws_table.c:333-354 | On a readable table the lookup of the key of any slot that is not UNUSED stops at that slot, tombstone or not |
| TableState.LegibleInserted | src/lws_table.c:356-419 | Insertion of a key that no slot holds keeps the table readable, tombstones, relocation and overwritten tombstone included |
| TableState.TouchedDead | src/lws_table.c:151-154 | Relinking a tombstone at the tail leaves links and slots that no order makes a valid table |
| Table.Table.Create | src/lws_table.c:40-61 | Which loads get a table, of which size, the least listed one that is not below what is asked for, with which load limit, empty and with the whole invariant |
| Table.Table.SetCi | src/lws_table.c:111-117 | Case folding can only be changed while the table is empty, and the entries stay as they are |
| Table.Table.SetCap | src/lws_table.c:128-135 | The same for the cap, which must be positive |
| Table.Table.Find | src/lws_table.c:333-354 | The probe loop stops at the first match before an unused slot, or, having seen every slot, finds nothing; which spellings of a key match is Keys.SameIsSpelled |
| Table.Table.WorstLength | src/lws_table.c:361-370 | The first loop ends, at the first probe that meets a slot that is not SET |
| Table.Table.Relocation | src/lws_table.c:376-405 | The two nested loops find the plan of TableState.IsPlan |
| Table.Table.Insert | src/lws_table.c:356-419 | Slots, list and result after an insertion, including the relocation of an entry and of its neighbours' links |
| Table.Table.Rehash | src/lws_table.c:297-331 | The same entries in the same order, in a new array of the next size with its load limit, with no tombstones and room for one more; or nothing changes |
| Table.Table.Remove | src/lws_table.c:421-431 | The slot is unlinked and marked, its key or value lost if the table owns them, and the count goes down by one, wrapping below zero |
| Table.Table.AnswerIsRightIff | src/lws_table.c:137-156 | With the source's lookup, a readable table answers for a key as the map does if and only if the lookup does not stop at a tombstone; if it does, the map has no such key |
| Table.Table.AnswersAreRightIff | src/lws_table.c:137-156 | It answers so for all keys if and only if there is no tombstone |
| Table.Table.Get | src/lws_table.c:137-156 | The value is that of the slot the lookup stops at; value and order are those of the ordered map unless that is a tombstone, and then the exact links and slots; and what is left is a valid table in some order if and only if there is no cap or it is not |
| Table.Table.Put | src/lws_table.c:158-219 | The entries afterwards are those of the ordered map after a set or a removal, with eviction and growth; it fails only when the largest size is full; when the lookup stops at a tombstone, the exact links and slots that a set with or without a cap, or a removal, leaves instead; and when what is left is a valid table in some order |
| Table.Table.Next | src/lws_table.c:221-245 | The entry after the one with the key, the first for none, and nothing after the last or for an unknown key; after a key whose lookup stops at a tombstone, what the link left there leads to |
| Table.Table.Entries | src/lws_interface.c:646-662 | Iterating from nothing yields every listed entry once, in order, and stops, if the lookup of no listed key stops at a tombstone |
| Table.Table.Clear | src/lws_table.c:78-93 | The table is empty and all its slots are zeroed |
| TableRuns.Run | src/lws_table.c:78-245 | Over every run of gets, sets, removals, iteration steps and clears, all answers and the final entries are those of the ordered map; the run stops early only at the first lookup that stops at a tombstone, or when the largest size is full |
| TableRuns.SetAndGet | src/lws_table.c:137-219 | After a set, a get of any spelling of the key gives the value, and a get of any other NUL-free key what it gave before unless that key was evicted, if its lookup does not stop at a tombstone |
| TableRuns.RunOfFewKeys | src/lws_request.c:43-57 | A capped table with the source's lookup is the least-recently-used cache on every run that removes nothing and sets no more keys than the cap |
| TombstoneRuns.RunPastTombstones | src/lws_table.c:137-245 | Over every run on a table without a cap that owns neither keys nor values, an operation whose lookup stops at a tombstone is of a key that was set and removed, leaves the map alone and, if a get, answers with the value last set; all others are answered by the map; the run ends early only when the largest size is full or at the removal of such a key |
| TableRuns.Reuse | src/lws_table.c:78-245 | A table that is used, iterated over and cleared any number of times gives the answers and entries of a new ordered map each time, if lookups pass tombstones over or no use makes any |
| OrderedMap.RunLookup | src/lws_table.c:137-219 | After every run an uncapped table has the value last set for a key and not removed since; with a cap a key may be absent but never has an older value |
| OrderedMap.RunUnique | src/lws_table.c:158-219 | After every run keys are unique, and there are at most as many as the cap |
| OrderedMap.RunKeepsKeys | src/lws_table.c:158-219 | After every run each entry has the key, as it is spelled, of the set that brought it in, and has been held since; an update changes the value only |
| OrderedMap.RunFollowing | src/lws_table.c:221-245 | After every run the first entry follows nothing, each entry is followed by the next, and nothing follows the last one, a key that is not held, or a key without a value |
| OrderedMap.RunIsInsertionOrdered | src/lws_table.c:158-219 | Without a cap, entries stay in the order in which their keys came in; an update keeps its place |
| OrderedMap.RunIsLeastRecentlyUsedFirst | src/lws_table.c:141-150 | With a cap, entries are in the order in which their keys were last got or set, so the victim is the least recently used |
| OrderedMap.RunHolds | src/lws_table.c:137-219 | With a cap, a run holds a key if and only if it was set and not removed, and at no time since its last use there were cap other keys that were used since and not removed; without removals, if and only if fewer than cap others were used since its last use |
| OrderedMap.FewAreCalm | src/lws_table.c:177-182 | A run that removes nothing and sets no more keys than the cap evicts nothing |
| TableRuns.GetAfterRemove | src/lws_table.c:341-346 | With the source's lookup, a get after a removal that stops at the tombstone breaks a capped table, and answers with the removed value if nothing was freed, when it always stops there; otherwise it answers with nothing |
| TableRuns.GetAfterRemoveAndSet | src/lws_table.c:158-219 | A key that is set after its removal, by a lookup that stops at the tombstone, is found but not listed, and a capped table is broken; otherwise the set is that of the map |
| TableRuns.RemoveTwice | src/lws_table.c:421-431 | A second removal whose lookup stops at the tombstone is counted although nothing is removed, and breaks the table, capped or not; otherwise it does nothing |
| TableRuns.GetAfterEviction | src/lws_table.c:177-182 | After a set that evicts the first entry, a get of that key breaks the table if and only if it stops at the tombstone, and otherwise answers with nothing; if nothing is freed and the new key's home slot was unused, it stops there and answers with the evicted value |
| TableRuns.EvictionWitness | src/lws_table.c:137-219 | The same from an empty table with a cap of one, with two keys |
| Base64.Tables | src/lws_codec.c:24-36 | The two tables are inverse to each other, and 0x80 marks exactly the characters outside the alphabet |
| Base64.Alphabet | src/lws_codec.c:35-36 | The table for encoding is the alphabet of RFC 4648, Table 1, written out |
| Base64.Places | src/lws_codec.c:24-34 | The table for decoding gives every character of that alphabet its place in it, and the mark exactly to all others |
| Base64.Regroup | src/lws_codec.c:105-107 | Splitting three bytes into four groups of six bits and putting them together, as the source does with shifts and a bitwise or, are inverse |
| Base64.BlockBits | src/lws_codec.c:184-191 | The shifts and masks on a word of 24 bits take out the four groups of six bits |
| Base64.MarkBits | src/lws_codec.c:102-104 | The test of the mark bit in the bitwise or of four table values says whether one of them is the mark |
| Base64.Encode | src/lws_codec.c:151-195 | In place, from the end: the buffer holds the encoding of the bytes it held, which is each block's 24-bit number in base 64, spelled in the alphabet written out and padded; and the rest is untouched |
| Base64.EncodedSpells | src/lws_codec.c:151-195 | Every character of an encoding stands in the alphabet at the base-64 digit of its block's number, or is the padding beyond the last byte |
| Base64.Vectors | src/lws_codec.c:151-195 | Three of the test vectors of RFC 4648, section 10, one for each padding |
| Base64.EncodeLen | src/lws_codec.c:197-206 | The length of the encoding, or an error exactly if a size_t cannot hold it |
| Base64.Decode | src/lws_codec.c:81-149 | In place, forwards: it succeeds exactly if the string decodes, and leaves what it decodes to |
| Base64.DecodedExactly | src/lws_codec.c:85-149 | Decoding succeeds exactly on whole blocks over the alphabet with at most two padding characters at the end, and gives three bytes a block less the padding |
| Base64.DecodedOfEncoded | src/lws_codec.c:81-195 | Decoding an encoding gives back the bytes, for every input |
| Base64.EncodedOfDecoded | src/lws_codec.c:81-195 | Encoding what was decoded gives the string with the unused bits before the padding cleared |
| Base64.CanonicalIffRestored | src/lws_codec.c:81-195 | It is the same string if and only if those bits are zero |
| Base64.EncodeDecode | src/lws_codec.c:81-195 | Encoding and decoding one buffer in place restores its bytes and their number |
| Utf8.AcceptsExactlyUtf8 | src/lws_codec.c:59-78 | The automaton accepts exactly the octets of RFC 3629, section 4, of any length |
| Utf8.RejectAbsorbs | src/lws_codec.c:59-78 | Nothing leads out of rejection |
| Utf8.ValidUtf8 | src/lws_codec.c:208-220 | With early rejection, zero exactly for UTF-8 |
| Utf8.AcceptedAppend | src/lws_codec.c:208-220 | After accepted input, the whole is accepted exactly if the rest is |
| Streaming.Response.HandleRead | src/lws_interface.c:274-334 | A call hands out the next bytes of prelude, separator and body, as many as fit; a pause or the end only once all that was written has been handed out; an overflowing size aborts |
| Streaming.Response.ProductFits | src/lws_interface.c:279-283 | The overflow check is exact |
| Streaming.Response.Perform | src/lws_interface.c:67-138 | A transfer runs until it pauses, until libcurl ends it or until libcurl fails; without finishing, it returns 0 exactly if it pauses or has ended, and has then handed out everything if and only if it had before, or libcurl's buffers had room for it |
| Streaming.Response.StreamResponse | src/lws_interface.c:832-933 | A flush opens or resumes the stream; if it succeeds it leaves the transfer paused with everything handed out, or ended; once ended, flushes succeed and hand out nothing |
| Streaming.Response.Finalize | src/lws_request.c:272-280 | It succeeds exactly if libcurl reports the transfer a success; a transfer that is complete is exactly header, eight zero bytes and body; and a transfer that had ended before is reported as it ended |
| Streaming.Response.Seek | src/lws_request.c:124-133 | While streaming, a seek keeps what was handed out a prefix if and only if it does not go behind it |
| Streaming.Respond | src/lws_interface.c:832-933 | Over every interleaving of writes and flushes, whatever libcurl does, what is handed out is a prefix of header, eight zero bytes and body, byte by byte, that only grows; a flush that succeeds has handed out everything written before it unless the transfer has ended; the response succeeds exactly if libcurl says so; and all is handed out if libcurl asks often enough |
| Streaming.SentIsFramed | src/lws_interface.c:287-320 | Whatever has been sent of a response, its bytes are those of the prelude, then eight zeros, then the body from eight bytes behind the prelude on |
| Streaming.LostFlush | src/lws_interface.c:82-92 | libcurl cannot connect: two flushes return 0 with nothing handed out, and finishing returns -1 |
| QueryArgs.IterateKeepsMeaning | src/lws_lib.c:181-235 | Every step of the state machine keeps what the rest will decode to and lowers the measure of input from the pending percent sign, then states left |
| QueryArgs.Unescape | src/lws_lib.c:175-236 | The output is that of the recursive definition, malformed escapes kept and truncated ones dropped, and never longer than the input; it is percent-decoding, over hexadecimal digits written out, of the text without an escape that its end cuts off |
| QueryArgs.HexDigits | src/lws_lib.c:204-229 | The ranges of the source are exactly the characters of 0123456789abcdef and 0123456789ABCDEF, with their places there as values |
| QueryArgs.EscapeIsByte | src/lws_lib.c:204-229 | A percent sign and the digits of h and l, each in either case, unescape to the one byte 16 * h + l |
| QueryArgs.Example | src/lws_lib.c:755-826 | The query k+%2F=v%3d&f= parses to the key "k /" with the value "v=" and the key "f" with none |
| QueryArgs.ParseArgs | src/lws_lib.c:755-826 | The table is that of the recursive definition, and for any input no key is left on the stack |
| QueryArgs.QueryRoundTrip | src/lws_lib.c:755-826 | Any list of keys and values, encoded in any valid way and joined, parses to the map in which later values win |
| QueryArgs.ParsedIsSets | src/lws_lib.c:781-821 | The table the parser leaves is made by setting a list of arguments one after the other |
| QueryArgs.SetsAreForm | src/lws_lib.c:781-821 | That list is the reading of the text as form data if and only if between any two = stands an & |
| QueryArgs.ValueIsCut | src/lws_lib.c:785-787 | The text a=b=c sets a to b and c to the empty string, where form data sets a to b=c |
| QueryArgs.TruncatedIff | src/lws_lib.c:175-236 | Unescaping is percent-decoding if and only if the text does not end within an escape, and for every text it is percent-decoding of what precedes such an escape |
| QueryArgs.PercentEncodes | src/lws_lib.c:175-236 | Every string of bytes has such an encoding |
| ResponseBody.Grow | src/lws_request.c:91-110 | Growth ends without overflow at the first capacity of the unbounded growth sequence that is enough, or at just what is required if a size_t cannot hold that; below twice what is required, or at 4096 |
| ResponseBody.GrowthBoundExact | src/lws_request.c:97-108 | The two bounds in the loop are the exact ones |
| ResponseBody.LikelyTypes | src/lws_request.c:75-80 | A body counts as likely UTF-8 exactly if its Content-Type begins with text/html, text/plain or application/json |
| ResponseBody.Body.Write | src/lws_request.c:59-122 | The bytes are appended, or refused exactly if the length would overflow; the buffer covers the encoded length; and it grows only if it has to |
| ResponseBody.Body.Seek | src/lws_request.c:124-133 | The body is cut off at a position within it, and any other is refused |
| ResponseBody.SeekKeepsRoom | src/lws_request.c:82-88 | When room for the encoding of a body is room for that of every shorter one |
| ResponseBody.Play | src/lws_request.c:59-133 | Over every run of writes and seeks the buffer holds the abstract body, and has room for its encoding unless a length overflows |
| ResponseBody.Body.Prepare | src/lws_interface.c:739-755 | What is posted is the body if it is UTF-8 and otherwise its base64 encoding, for which a body written in full needs no new buffer |
| Substitution.StringSub | src/lws_request.c:135-187 | The new string is the template with its captures; it fails exactly for a reference to an unmatched group or a length overflow, and the second pass fills exactly what the first has measured; which group a reference takes is in the next rows |
| Substitution.ReferenceIsGroup | src/lws_request.c:144-184 | Between any two texts, $d stands for what group d has matched, for each digit d, and is an error exactly if that group took no part |
| Substitution.DollarIsKept | src/lws_request.c:172-184 | Between any two texts, a $ that no digit follows is kept |
| Substitution.PlainIsKept | src/lws_request.c:172-184 | A template without a $ is its own result |
| Substitution.Example | doc/EnvironmentVariables.md:39 | The template services/$1.lua gives services/, the first group and .lua |
| Substitution.SubstitutedConcat | src/lws_request.c:172-184 | Templates can be substituted piece by piece, unless a reference forms where they meet |
| Lifecycle.Context.Call | src/lws_lib.c:1068-1132 | When a chunk call fails, what its nil or integer result is worth otherwise, and that only a pre chunk completes the request |
| Lifecycle.ChunkResult | src/lws_lib.c:1109-1127 | A chunk that asks for nothing and returns nil succeeds with 0; an integer, taken as an int, fails if negative, is the result otherwise, and if positive completes a pre chunk's request; anything else, and an error, fails |
| Lifecycle.StoppedFails | src/lws_lib.c:1068-1132 | A chunk that asks for completion and does not catch the error fails unless it is the pre chunk, whose request is then complete |
| Lifecycle.StatusIs | src/lws_lib.c:1109-1117 | The conversion to int, for integers of any size: the sign and the value are those of the residue by 2 to the power of 32 |
| Lifecycle.AllSucceed | src/lws_lib.c:1134-1190 | If all chunks return nil and ask for nothing, exactly init on a new state, pre and post, as configured, and main are entered, in this order, and the result is 0 |
| Lifecycle.Context.Run | src/lws_lib.c:1134-1190 | The calls of a request follow the rules of Lifecycle.Sequenced; unless init or pre fails, main is skipped exactly if pre completes the request, and post then comes last; and the result is that of the last deciding chunk |
| Lifecycle.SequencedUnique | src/lws_lib.c:1155-1181 | The rules determine the calls |
| Lifecycle.NothingAfterError | src/lws_lib.c:1068-1190 | No chunk, so no post chunk, follows a Lua error |
| Lifecycle.Context.RunState | src/lws_state.c:132-169 | A Lua error gives -1 and marks the state for closing |
| Lifecycle.Context.Release | src/lws_state.c:108-130 | When the state is closed, and that closing zeroes all lifecycle fields |
| Lifecycle.Context.HandleRequest | src/lws_request.c:282-304 | The answer to every request, and between requests either no state and all fields zero, or an initialized state that is not to be closed and has served fewer requests than the maximum; if all chunks return nil, exactly the configured chunks and main are entered and the answer is that of finalization |
| Lifecycle.Context.MainAnswers | src/lws_request.c:282-304 | If finalization gives 0 and the other chunks return nil, the answer is the integer that main returns, 0 for nil, and 500 if main fails |
| Lifecycle.Context.PreAnswers | src/lws_request.c:282-304 | If finalization gives 0, and init and post return nil, a positive integer that pre returns is the answer and main does not run; a negative one gives 500, and neither main nor post runs |
| Lifecycle.InitOncePerState | src/lws_lib.c:1155-1161 | Over every run of requests, each Lua state enters the init chunk, if there is one, exactly once and before any other chunk |
| Lifecycle.StateAges | src/lws_state.c:108-116 | No state serves more requests than the maximum, and one is given up exactly after an error, a request to close, or its last allowed request |
| Lifecycle.Context.HandleAll | src/lws_request.c:282-304 | Over any sequence of requests, one is run, next in order, exactly if it is prepared and there is a Lua state or one can be created; otherwise it is answered without a run |

## Left out

- Table.Table.Create: without the memory for its slots; allocation always succeeds in the model.
- Lifecycle.Context.Call: memory errors outside the chunk itself, and the loading of chunks once per state, are not distinguished.
- Streaming.Response.Perform: what libcurl does is a list of buffers and then one outcome: it cannot resume, it fails, or it ends the transfer with or without success. A handle that never ends is not modelled.
- Table.Table.AnswerIsRightIff: for tables that own neither keys nor values. On one that does, the source reads freed memory in a tombstone; the model fixes what stands there when the entry is removed, so a later change of it does not show.
- Ownership otherwise: duplicated keys and values are values in the model, so aliasing does not show.
- `post_response`, which sends a response that is not streamed.
- Timed tables (`lws_table_set_timeout`), which nothing in the repository uses.
- The overflow of the request count, and the garbage collection of a released state.
- The hint for the number of records that `lws_parseargs` passes to `lua_createtable`.
- The growth of the request body (`lws_handle_write`), the same loop as that of the response body.
- Matching the path (`regexec`), the Lua libraries and metatables, and the branches for Lua 5.1.
- yyjson documents, header folding, cookies, the list of HTTP statuses, error responses and diagnostics.
- libcurl, sockets, signals, environment variables, logging, and the cleanup of the main loop.
