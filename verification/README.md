# Passgen verification

Passgen compiles a pattern that looks like a regular expression into a tree and draws random words from it. This
project models the parts of it that compute: the parser with its stack of frames, the generator with its entropy, the
Markov chain, the containers, the UTF-8 codec, rejection sampling, and the limb arithmetic, buffering and indexing of
the cryptography behind its deterministic mode. Methods are proved against functions of their inputs or of the state
before them. What these functions promise is proved in lemmas, most of which relate them to others that know nothing of
how the work is done: plain counting, maps and sequences, languages, or numbers. The parser's handlers are steps of a
state machine; they are proved to take the step of `Parsing`, and that machine to parse every input as the simpler one
of `ParserSimple` does, which has neither blocks nor addresses.

The files, from the bottom up:

- `Words`, `BitOps`: machine words, positional values, little-endian words, bit operations as functions on numbers.
- `ScalarL`, `Scalars`: Barrett and Montgomery reduction modulo L, and the inverse modulo L by exponentiation.
- `Poly1305`: the authenticator and its incremental interface.
- `Slide`: recoding scalars in signed windows, and the ladder that reads two of them at once.
- `Blake2b`: the incremental interface, over any compression function.
- `Argon2`: the reference window, and filling the memory in place, over any block function.
- `Chacha`: the counter and the random source, over any block function.
- `RandomMax`: bit smearing and rejection.
- `Stack`, `Hashmap`: the binned stack and the two-way hash map.
- `Utf8`: the decoder's automaton, the decoder and the encoder.
- `Pattern`, `Derivation`: patterns, the words of their language, and derivations, with the draws behind them.
- `Probability`, `TotalProbability`, `Enumeration`: how likely a derivation is, and that these probabilities add up.
- `Generation`, `Generate`: what a run of the generator does, and the object that does it.
- `Questions`: which patterns have question marks that may be decided, and what that means for the reported entropy.
- `Parsing`: the parser as a function of its state. A state has frames with addresses, and the open groups with the
  blocks that their stacks are stored in; a token whose frame has a stale address goes astray.
- `ParserSpine`, `ParserBlocks`, `ParserSums`, `ParserContent`, `Parser`: what every accepted token keeps, what is
  parsed, and the parser as an object.
- `ParserSimple`: a parser without blocks and addresses, which gives the same.
- `ParserTokens`: what every token means, by its number, and what text is parsed to.
- `ParserPrint`, `ParserWritten`, `ParserRepeats`: writing patterns down, reading them back, and which patterns inputs
  are parsed to.
- `MarkovLeaf`, `MarkovTrie`, `MarkovCounts`, `Markov`: tables that grow, the trie of them, plain counting, the chain.

The widths of integers are explicit: `u32` and `u64` are subranges that every assignment is checked against, and
arithmetic that wraps around in the source is written with a remainder. Entropy is computed with real numbers.

## Findings

Where the code does not do what its callers may expect, the model follows the code. For each of these there is an input
for which it fails, and an equivalence that says for which inputs it does.

- Markov counts have 32 bits, but weights have 64. After a word with weight 2^32, its counts are 0 and the total is
  2^32, so that generation finds no codepoint (`Markov.HeavyCounts`, `Markov.DeadEnd`; src/markov.c:157-158, 309-328).
  All counts are right exactly if no window is counted 2^32 times or more (`MarkovCounts.CountsExact`), and a context
  leads on for every number that may be drawn exactly if its total is not above the sum of its counts
  (`Markov.StuckExact`).
- The number of choices for a repetition is computed in 64 bits. For `a{0,18446744073709551615}` and `a{1,0}`, both
  of which are parsed, it is 0, and no random number is below it (`ParserRepeats.NothingToDraw`;
  src/generate.c:286-295). It is 0 exactly if the bounds are those of the whole range or the maximum is one below the
  minimum. There is something to draw, and every draw gives a number within the bounds, exactly if the repetition is
  drawable: its bounds do not run backwards and are not those of the whole range (`Generation.RepetitionExact`,
  `Pattern.Drawable`).
- A read from the ChaCha20 source that begins inside the last 64 bytes of the 2^64 byte keystream and ends behind them
  goes on at the start of the keystream; one that begins earlier does not. A read is the keystream from its position on
  exactly if it is not of the first kind (`Chacha.ReadExact`), and splitting a read never matters exactly if it ends in
  the keystream or is of the first kind (`Chacha.SplitExact`; src/random/deterministic.c:37-60). What a seek reads anew
  is the keystream from there on exactly if the position is at most 2^64 - 64 (`Chacha.SeekExact`).
- The parser looks at the low byte of a codepoint to tell whether it is syntax. U+017C has that of the bar, and is parsed
  to two empty segments (`ParserTokens.BarParsed`; src/parser/parser.c:265-276). A codepoint on its own is parsed as text
  exactly if its low byte is none of the six that are syntax (`ParserTokens.CodepointParsed`).
- A second `{n}` prefix of a segment, and a segment that is taken up again after `{0}`, make a group's sum differ from
  the multipliers of its segments (`ParserContent.PrefixedTwice`, `ParserContent.RecycledSegment`;
  src/parser/parser.c:273-276, 311-312). By how much each token makes it drift is exact, and the sum is right exactly
  if the drifts add up to a multiple of 2^64 (`ParserSums.SumsExact`).
- Draws for question marks are not counted in the entropy, so that each one that is decided leaves a factor of two out
  (`Generation.MaybeUncounted`, `Generation.EntropyReciprocal`; src/generate.c:459-463). Whatever is generated, the
  reported entropy is the reciprocal of its probability exactly if the pattern has no question mark that may be reached:
  one in a segment whose multiplier is not zero, and in groups that are so and may be repeated
  (`Questions.ReportedExact`).
- Inserting a key again that sits in its second slot, while the first is free or can be freed, puts it in both
  (`Hashmap.InsertClash`, `Hashmap.ClashExample`; src/container/hashmap.c:130-147). Where a key finds a place, the slots
  represent the map with the new binding exactly if that is not so (`Hashmap.InsertExact`).
- Removing a key from a hash map that nothing was ever inserted into computes a remainder by the capacity 0, as removal
  does not check for that and looking up does (`Hashmap.RemoveFromNew`; src/container/hashmap.c:175-180, 209-212). That
  happens exactly if the map has no slots (`Hashmap.Map.Remove`).
- The UTF-8 encoder takes surrogates, for which its bytes are no UTF-8 (`Utf8.EncodedChar`; src/util/utf8.c:111-117),
  and the decoder accepts input that ends within a character (`Utf8.DecodeSucceeds`; src/util/utf8.c:81-85).
- For an output of less than four bytes, the encoder's limit `out_len - 4` wraps around, and it writes behind the output
  (`Utf8.WrittenBeyond`; src/util/utf8.c:139). Whatever the input, it stays inside exactly if there are at least four
  bytes (`Utf8.WrittenExact`).

## Model

| member | source | states |
|---|---|---|
| ScalarL.GroupOrder | src/monocypher.c:1567-1570 | The modulus is the group order of section 5.1 of RFC 8032 |
| ScalarL.Multiply | src/monocypher.c:1573-1584 | The product of any two numbers is added to the low half of p, whatever the high half held before, and no carry overflows |
| ScalarL.RemoveL | src/monocypher.c:1586-1611 | For every x below 2 * L, the result is x modulo L |
| ScalarL.ModL | src/monocypher.c:1614-1656 | For every 512-bit x, the result is exactly x modulo L: the estimate of the quotient is at most one too small |
| ScalarL.Redc | src/monocypher.c:2752-2788 | For every x below L * 2^256, the result is below L, and 2^256 times it is x modulo L |
| Scalars.MulAdd | src/monocypher.c:1667-1687 | a * b + c modulo L for any 32-byte a, b and c |
| Scalars.Inverse | src/monocypher.c:2806-2835 | The scalar to the power L - 2 modulo L, for every scalar, through Montgomery form and back |
| Scalars.TrimmedValue | src/monocypher.c:1469-1475 | Trimming clears the three lowest bits and the top one, sets the one below, and keeps all others |
| Scalars.InverseScalar | src/monocypher.c:2790-2843 | The result is below 8 * L, a multiple of 8, and modulo L the trimmed scalar to the power L - 2 |
| Scalars.OnlyCleared | src/monocypher.c:2421-2430 | There is only one such number: the cofactor is cleared in the only way there is |
| Poly1305.MulReduce | src/monocypher.c:310-363 | One block maps h to a number congruent to (h + c) * r modulo 2^130 - 5 that is in bounds again, and no 32 or 64-bit word overflows on the way, 32-bit products included |
| Poly1305.Finish | src/monocypher.c:424-438 | The sixteen bytes are the accumulator, fully reduced, plus the pad, modulo 2^128, for every accumulator in bounds |
| Poly1305.Context.Update | src/monocypher.c:377-411 | Feeding a message of any length, from any alignment, appends it to what was fed, and the chunk is never left full |
| Poly1305.Context.Final | src/monocypher.c:413-440 | After any updates, the result is the authenticator of section 2.5 of RFC 8439 of everything that was fed |
| Poly1305.AccumulateAppend | src/monocypher.c:401-404 | Accumulating whole blocks and then the rest is accumulating the message: where a message is split does not matter |
| Slide.SlideContext.Step | src/monocypher.c:1938-1962 | Every digit is zero, or odd and inside its table; what was emitted and what is waiting keep spelling the number, and no waiting digit is lost |
| Slide.Recoder.Replace | src/monocypher.c:1944-1959 | When a window sets up a new digit, none is waiting any more |
| Slide.Ladder | src/monocypher.c:1998-2018 | For all reduced scalars, what the merged ladder adds and takes away from its tables of 2 and 8 odd multiples is both scalars |
| Blake2b.Context.Update | src/monocypher.c:558-624 | Feeding a message of any length by bytes, words or blocks appends it to what was fed, and a block is compressed only if more is to come |
| Blake2b.Context.Final | src/monocypher.c:626-636 | After any updates, the output gets as many bytes as were asked for, at most 64, of the state that section 3.3 of RFC 7693 gives for everything that was fed: same blocks, counters, last-block flag and zero padding |
| Blake2b.SerializedWords | src/monocypher.c:628-634 | Each word of the state can be read back from the bytes |
| Blake2b.IVRoots | src/monocypher.c:454-459 | The words of the start state are those of section 2.6 of RFC 7693: the fractions of the square roots of the first eight primes |
| Blake2b.Parameters | src/monocypher.c:530-536 | For sizes of a byte, the first word of the start state is changed by the parameter block of section 2.5 of RFC 7693 |
| Blake2b.Hash | src/monocypher.c:638-646 | The one-shot form feeds the key's block first, starts from the state for both sizes, and stores the hash |
| Argon2.WindowNotEmpty | src/monocypher.c:864-875 | In 32-bit arithmetic, the reference window is never empty and has the size that is meant |
| Argon2.WindowAllowed | src/monocypher.c:864-883 | Every block that can be chosen is one that section 3.4 of RFC 9106 allows: never the current or the previous one, and in another lane not in the current slice |
| Argon2.AllowedInWindow | src/monocypher.c:864-883 | Every block that section 3.4 of RFC 9106 allows is in the window |
| Argon2.SelectedExact | src/monocypher.c:876-880 | The distance into the window is that of section 3.4.2 of RFC 9106: the square of the low half of the seed, cut to its high half and scaled down to the window |
| Argon2.ReferenceExact | src/monocypher.c:864-883 | The reference block, from both halves of the seed: the lane is the high half modulo the lanes, but for the first slice of the first pass, and the block is that far into the window |
| Argon2.ReferenceReady | src/monocypher.c:815-890 | The chosen block is already written in this pass exactly if the recurrence takes it from this pass |
| Argon2.IndexFits | src/monocypher.c:818-884 | Cutting block indices and lane offsets to 32 bits does not change them |
| Argon2.Fill | src/monocypher.c:801-891 | For every configuration, filling in place leaves exactly the values of the recurrence, which does not know the order of the lanes; counters of address blocks are right |
| Argon2.StoredAt | src/monocypher.c:820-823 | Lanes lie one behind the other in the work area |
| Argon2.FillWorkArea | src/monocypher.c:747-891 | At least eight blocks for each lane are enough for all of that |
| Chacha.Generate | src/monocypher.c:219-275 | From any 64-bit counter, the output is the keystream from that block on, with the carry between the counter's words, and with the plain text mixed in byte by byte if there is one |
| Chacha.MixedTwice | src/monocypher.c:240-268 | Mixing the same keystream into the cipher text gives the plain text |
| Chacha.Source.Read | src/random/deterministic.c:37-60 | Reads of all sizes at all positions: what each byte is, and the new position |
| Chacha.ReadExact | src/random/deterministic.c:37-60 | For all ciphers, a read is the keystream from its position on, exactly if it does not begin in the last block and end behind it |
| Chacha.SplitExact | src/random/deterministic.c:37-60 | Splitting a read in two never changes it, exactly if it ends in the keystream or begins in the last block |
| Chacha.Source.Perform | src/random/deterministic.c:18-108 | For any sequence of seeks and reads, what each of them reads and where it ends |
| Chacha.SeekExact | src/random/deterministic.c:97-108 | What a seek reads anew is the keystream from its position on, whatever came before, exactly for positions up to 2^64 - 64 |
| Chacha.OutputAt | src/random/deterministic.c:37-108 | In any such sequence, each read gives the keystream from the position that the ones before lead to, if it stays in it |
| Chacha.PositionAfterSeek | src/random/deterministic.c:97-108 | After a seek, positions are the sum of the sizes since, and what was before does not matter |
| RandomMax.U64Max | src/random/random.c:260-278 | For every max that is not zero, the result is what the least sufficient mask leaves of the first word that makes it less than max |
| RandomMax.LeastMask | src/random/random.c:260-278 | Smearing gives the least number of the form 2^k - 1 that is at least max |
| RandomMax.EquallyMany | src/random/random.c:207-278 | Every number below max comes from the same number of raw words |
| RandomMax.HalfAccepted | src/random/random.c:207-278 | At least half of all raw words are accepted |
| Stack.BinCountLeast | src/container/stack.c:18-25 | The bin count is the least power of two that is at least the length |
| Stack.BinSizes | src/container/stack.c:18-25 | No bin gets larger than 32 elements, and the first has as many as soon as there are others |
| Stack.Stack.Push | src/container/stack.c:68-110 | Pushing appends to the sequence, every index stays inside its allocation, and the first bin and the table have the promised sizes |
| Stack.Stack.Get | src/container/stack.c:112-123 | Every position gives the element of the sequence, others give none |
| Stack.Stack.Pop | src/container/stack.c:125-160 | Popping takes the last element off the sequence, with the same promises about sizes |
| Hashmap.InsertGood | src/container/hashmap.c:123-168 | Wherever a key finds a place, with or without moving another, the slots represent the map with that binding, unless the key clashes |
| Hashmap.InsertExact | src/container/hashmap.c:123-168 | Where a key finds a place, the slots represent the map with that binding exactly if the key does not clash |
| Hashmap.InsertClash | src/container/hashmap.c:130-147 | A key that clashes is in two slots afterwards |
| Hashmap.ClashExample | src/container/hashmap.c:130-147 | A map and a key that clashes |
| Hashmap.SizesInOrder | src/container/hashmap.c:108-120 | Growing takes the sizes one after the other, and behind the last makes one less than twice as many slots |
| Hashmap.HeadingTried | src/container/hashmap.c:122-172 | With a size ahead at which the first places of all keys are different, an attempt succeeds or there is another step to it; once there, every attempt succeeds |
| Hashmap.Map.Insert | src/container/hashmap.c:122-172 | Inserting, with growing as often as it takes, adds just that binding and returns the one it replaces; it ends if the key has a place, and at the latest at a size at which the first places of all keys are different; for a key that clashes, what goes wrong |
| Hashmap.AtMostTwo | src/container/hashmap.c:90-95 | If the hash is the same for all keys, no number of slots holds three of them |
| Hashmap.InsertThird | src/container/hashmap.c:149-171 | Then inserting a third key finishes for no number of reallocations |
| Hashmap.Map.Realloc | src/container/hashmap.c:71-87 | Growing keeps all bindings |
| Hashmap.Map.Lookup | src/container/hashmap.c:207-231 | Looking up agrees with the map |
| Hashmap.Map.Remove | src/container/hashmap.c:174-205 | Removing takes out just that key and returns its value; without slots, and only then, it divides by zero |
| Hashmap.RemoveFromNew | src/container/hashmap.c:174-180 | Removing anything from a new map divides by zero |
| Utf8.FeedStep | src/util/utf8.c:28-37 | From every state, one byte leads on, completes a character or is rejected exactly as section 4 of RFC 3629 says, with the number read so far |
| Utf8.Decode | src/util/utf8.c:39-86 | The loop writes what decoding character by character gives, and uses as many bytes |
| Utf8.DecodeSucceeds | src/util/utf8.c:39-86 | With enough room, decoding succeeds exactly on well-formed input that may end within a character |
| Utf8.DecodedStands | src/util/utf8.c:39-86 | What was decoded are scalar values that encode to exactly the bytes that were used, in the reported widths, but for an unfinished character at the end |
| Utf8.EncodedChar | src/util/utf8.c:97-130 | A codepoint is encoded to a well-formed character that stands for it exactly if it is a scalar value |
| Utf8.DecodeEncoded | src/util/utf8.c:39-158 | Decoding what scalar values encode to gives them back |
| Utf8.EncodeInto | src/util/utf8.c:132-158 | The encoder's loop appends the encodings of what it used, for outputs of any size, and the three codes say exactly why it stopped |
| Utf8.WrittenExact | src/util/utf8.c:139-148 | Whatever the input, nothing is written behind the output exactly if it has at least four bytes |
| Utf8.WrittenBeyond | src/util/utf8.c:139-148 | Two codepoints that make the encoder write six bytes into an output of less than four |
| Utf8.ChunkedDecodes | src/passgen.c:30-52 | Decoding in chunks of any positive size gives the same result as decoding at once |
| Derivation.YieldInGroup | src/generate.c:454-538 | What a derivation yields is a word of the pattern's language |
| Derivation.GroupYields | src/generate.c:454-538 | Every word of the language is what some derivation yields |
| Generation.SelectWindow | src/generate.c:514-525 | A segment is chosen by exactly as many choices as its multiplier |
| Generation.SelectInRange | src/generate.c:514-525 | A choice lands on a segment exactly if it is below the sum of the multipliers |
| Generation.GenerationRuns | src/generate.c:454-560 | On every well-formed pattern without specials, generation succeeds exactly if the draws are those of a derivation that has the depth and the room; then its word is written, its entropy reported, and the depth restored |
| Generation.GeneratedWord | src/generate.c:454-560 | What is generated is a word of the language, and no deeper than the limit |
| Generation.EveryDerivation | src/generate.c:454-538 | Some draws make generation take any given derivation, whatever depth and room there are beyond what it needs |
| Generation.EveryWord | src/generate.c:454-560 | Some draws make generation give any given word of the language |
| Generation.RepetitionExact | src/generate.c:283-303 | There are draws for a repetition, and each gives a number within its bounds, exactly if it is drawable |
| Questions.ReportedEntropy | src/generate.c:297-321 | If no question mark may be reached, the reported entropy times the probability of the derivation taken is 1 |
| Questions.ReportedExact | src/generate.c:454-538 | That is so for all derivations exactly if no question mark may be reached |
| Generation.EntropyReciprocal | src/generate.c:454-538 | The reported entropy is the reciprocal of the probability exactly if no question mark was decided |
| Generation.MaybeUncounted | src/generate.c:459-463 | A pattern whose reported entropy is half of what it should be |
| Generate.Context.Group | src/generate.c:504-538 | The loops and updates of the generator do what the specification of a run says |
| Generate.FillUnicode | src/generate.c:205-229 | What is in the buffer on success is a word of the language; the length is none on failure |
| TotalProbability.TotalGroup | src/generate.c:504-538 | The probabilities of the derivations listed for a pattern add up to exactly 1 |
| Enumeration.GroupListed | src/generate.c:504-538 | The list holds every derivation, and each only once |
| Questions.ReciprocalsAddUp | src/generate.c:297-538 | The reciprocals of the reported entropies of all derivations add up to exactly 1 if no question mark may be reached, and to more otherwise |
| Questions.PlainGroup | src/generate.c:454-463 | None may be reached in a pattern without question marks |
| ParserSpine.StepSpine | src/parser/parser.c:185-351 | No token finds a frame with a stale address, and after every accepted token the frames are a spine again |
| ParserContent.ParseSafe | src/parser/parser.c:185-540 | For every input, no address that the parser follows is stale |
| ParserBlocks.StepUsed | src/parser/parser.c:185-351 | After every accepted token, no block belongs to two stacks |
| ParserBlocks.NeverAgain | src/container/stack.c:78-97 | A block that a stack gives up, as a push does that moves the first bin, never belongs to anything again, however the run goes on |
| ParserBlocks.MovedAway | src/container/stack.c:68-110 | A token that makes a stack outgrow its first bin makes it give up the block, whichever stack and token it is |
| ParserBlocks.OldBinForgotten | src/container/stack.c:78-82 | From then on, however the run goes on, no frame holds an address into the old bin, and it has the last element of nothing |
| ParserSimple.StepShows | src/parser/parser.c:185-351 | A token is accepted exactly if the parser without blocks and addresses accepts it, and both make the same of it |
| ParserSimple.ParsesAlike | src/parser/parser.c:185-540 | For every input, both parse it to the same pattern, or to none |
| ParserTokens.TextNext | src/parser/parser.c:328-350 | Every codepoint whose low byte is none of six joins the text, or begins a literal if the last has seven codepoints |
| ParserTokens.EscapeNext | src/parser/parser.c:238-263 | Escaped, seven low bytes are text and three begin a special; all others are an error |
| ParserTokens.BarNext | src/parser/parser.c:266-277 | A bar finishes the segment, or empties it if its multiplier is 0 |
| ParserTokens.OpenNext | src/parser/parser.c:289-303 | A parenthesis opens a group with one segment, a bracket a set |
| ParserTokens.CloseNext | src/parser/parser.c:278-288 | A closed group takes its place, without a last segment of multiplier 0, and with a sum of 0 if it has no items |
| ParserTokens.PrefixNext | src/parser/parser.c:304-326 | Without items, a brace begins a multiplier and takes 1 off the sum, and a question mark is an error |
| ParserTokens.LetterModified | src/parser/parser.c:155-183 | Behind text of more than one codepoint, a brace or a question mark is about the last one alone |
| ParserTokens.ItemModified | src/parser/parser.c:155-183 | Behind any other item, it is about that |
| ParserTokens.MultiplierRead | src/parser/parser.c:421-441 | Digits, the closing brace and nothing else continue a multiplier |
| ParserTokens.RepeatRead | src/parser/parser.c:443-470 | Digits, a comma and the closing brace, which makes the maximum the minimum, continue a repetition |
| ParserTokens.RepeatRangeRead | src/parser/parser.c:472-491 | Digits and the closing brace continue its maximum |
| ParserTokens.SetTokens | src/parser/parser.c:353-400 | What each codepoint, escaped or not, does in a set |
| ParserTokens.RangeTokens | src/parser/parser.c:402-419 | Every codepoint from the start on ends a range, but for a closing bracket |
| ParserTokens.NameTokens | src/parser/parser.c:493-522 | The name of a special is what stands in the braces behind it |
| ParserTokens.CodepointParsed | src/parser/parser.c:265-351 | A codepoint on its own is parsed as text exactly if its low byte is not syntax |
| ParserTokens.BarParsed | src/parser/parser.c:265-277 | Every codepoint with the low byte of the bar is parsed to two empty segments |
| ParserTokens.TextCut | src/pattern/literal.c:12-23 | Text is cut into literals of seven codepoints, but for the last |
| ParserTokens.TextParsed | src/parser/parser.c:334-351 | Text of any length without syntax is parsed to these literals |
| ParserTokens.ShortParsed | src/parser/parser.c:443-470 | Text with a number in braces behind it: both bounds of the last codepoint are the number, and the rest is as it was |
| ParserTokens.MaybeParsed | src/parser/parser.c:319-327 | Text with a question mark behind it: the last codepoint may be left out, and the rest is as it was |
| ParserPrint.RoundTrip | src/parser/parser.c:185-540 | Every pattern that can be written down is what its written form is parsed to, without a drift, if the stack has room for it |
| ParserWritten.ParsedPrintable | src/parser/parser.c:185-540 | Every pattern that an input is parsed to without a drift can be written down |
| ParserWritten.ParsedExact | src/parser/parser.c:185-540 | The patterns that inputs are parsed to without a drift are exactly those that can be written down |
| ParserSums.RunBalance | src/parser/parser.c:227-429 | After every accepted run, each group's sum is that of its segments' multipliers with the drift of the tokens, less what is being read |
| ParserSums.SumsExact | src/parser/parser.c:265-429 | The sum is right exactly if the drift is a multiple of 2^64 |
| ParserSums.RegularSums | src/parser/parser.c:265-429 | In runs without drift, the sum is right whenever no multiplier is being read |
| ParserSums.ClosedSum | src/pattern/group.c:23-44 | A group that is closed keeps its sum, but for one without items, whose sum is 0 |
| ParserContent.ParsedContent | src/parser/parser.c:155-351 | In what is parsed, all choices of sets are counted, all literals have one to seven codepoints, and groups without items are gone, at every depth |
| ParserContent.ParsedWellFormed | src/parser/parser.c:185-540 | What a run without drift parses is fit for generation exactly if no range is full, no repetition runs backwards or over all of size_t, no count overflows, and there are no specials |
| ParserContent.ChoicesExact | src/parser/parser.c:362-375 | The choices of a set are counted right exactly if no range holds all 32-bit numbers and there are less than 2^64 |
| ParserContent.RecycledSegment | src/parser/parser.c:273-276 | After {0}, a bar leaves a segment of multiplier 1 in a group of sum 0 |
| ParserContent.PrefixedTwice | src/parser/parser.c:311-312 | Two prefixes make the sum differ by one less than the first |
| ParserRepeats.LetterParsed | src/parser/parser.c:443-491 | For all pairs of size_t numbers, the repetition that is written with them is parsed to them exactly if the stack may hold three frames |
| ParserRepeats.NothingToDraw | src/generate.c:283-303 | The number of choices of a parsed repetition is 0 exactly for the whole range and for a maximum one below the minimum |
| Parser.Parser.Token | src/parser/parser.c:185-212 | Every accepted token keeps the spine, the balance of the sums, the completeness of items, and that no block is used twice |
| Parser.ParseTokens | src/parser/parser.c:542-563 | Feeding all tokens and finishing gives what the parser without blocks and addresses parses |
| MarkovLeaf.Insert | src/markov.c:119-161 | Inserting adds the weight to one count and to the total, through any growth, which ends at the last size for all codepoints |
| MarkovLeaf.SlotLast | src/markov.c:27-31 | At the last size, no two codepoints collide |
| MarkovTrie.InsertWord | src/markov.c:163-239 | Inserting a sequence adds the weight to its count and to the total of its context, and to no other |
| Markov.Chain.Add | src/markov.c:241-279 | The trie agrees with plain counts of the windows of all words, each window of the word and its zeros once |
| MarkovCounts.CountsExact | src/markov.c:141-161 | All counts are the plain ones exactly if none of those is 2^32 or more |
| MarkovCounts.LightCountable | src/markov.c:141-161 | That is so if the weights of all words, each as often as it has windows, add up to less than 2^32 |
| MarkovCounts.NextKnown | src/markov.c:254-279 | A codepoint other than zero that was seen behind a context leads to a context that was seen |
| Markov.Draw | src/markov.c:309-328 | For every number below the total, the search ends, and each codepoint gets exactly its count of the numbers |
| Markov.Chain.Generate | src/markov.c:287-328 | From a context that was seen, a codepoint is drawn that was seen behind it, with exact odds and entropy, and the next context was seen |
| Markov.Chain.Word | src/generate.c:377-384 | From the start, each codepoint of a word is what its own draw gives, until one gives the end of the word; generation never reaches a missing node or the unreachable end, unless a window was counted 2^32 times; the entropy is multiplied by one over the probability of all the draws |
| Markov.OddsNext | src/markov.c:304-321 | Each codepoint has the odds of its count among all that was seen behind its context |
| Markov.HeavyCounts | src/markov.c:157-158 | After a word of weight 2^32, every count is 0 |
| Markov.DeadEnd | src/markov.c:254-328 | A trie in which the start has 2^32 choices, and no choice leads to a codepoint |
| Markov.StuckExact | src/markov.c:309-328 | Every number below a context's total leads to a codepoint exactly if the total is not above the sum of the counts |

## Left out

- Generate.FillUnicode: does not model specials (`\m`, `\w`, `\p`), whose wordlists and presets are outside the pattern; a pattern with one is not well-formed.
- Generation.GenerationRuns: leaves open what happens on patterns whose sums or bounds are wrong, beyond the inputs in the findings; entropy is not optional and has no rounding.
- Hashmap.Map.Insert: bounds the number of reallocations by a parameter, because for some hashes, such as one that is the same for three keys, the source grows without end (`Hashmap.InsertThird`); what the map is when the bound is reached, which the source never comes to, is not stated.
- Poly1305.Context.Final: does not model that the context is wiped, and neither does Blake2b.Context.Final.
- Scalars.Inverse: states the power L - 2 modulo L; that this is the inverse needs that L is prime.
- Blake2b.Hash: the compression function is arbitrary.
- Chacha.Generate: the block function is arbitrary.
- ParserPrint.RoundTrip: the room that it asks for is enough; that it is needed is only proved for one repetition (`ParserRepeats.LetterParsed`).
- Argon2.Fill: the mixing of blocks, the initial hash and the hash of the last blocks are arbitrary functions or absent; blocks are values in an array.
- Slide.Ladder: the points of the curve are replaced by how often they are added.
- RandomMax.U64Max: the raw words are a given sequence, which may run out.
- Parser.Parser.Token: the stacks of finished groups and sets are values; only the stacks that frames can point into have blocks.
- The shared buffer of `passgen_random_read`: its second branch does not go on from the position.
- Curve arithmetic, key exchange, signatures and their encodings: they need the theory of the curve.
- The tokenizer, wordlists, SipHash, the output of UTF-8 and JSON, the command line, files and random devices.
- Failing allocations, and the layout of memory behind the entries of the Markov tables.
