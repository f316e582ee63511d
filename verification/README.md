# Verified models of the VKT chain

VKT is a delegated proof-of-stake chain of the EOSIO family. This project models the parts of it
whose correctness rests on arithmetic, ordering or protocol arguments, and proves what they promise.
`dafny verify dfyconfig.toml` checks all of it.

| files | what they model |
|---|---|
| `Common`, `Bits`, `Ieee754` | results that may fail; words, shifts and masks on naturals; the interchange formats of section 3.4 of IEEE 754-2008 and round to nearest, ties to even (section 4.3.1) as a statement about all finite patterns |
| `IntToDouble`, `CorrectRounding` | 128-bit integers to binary64, signed and unsigned, as the C code does it in place, and why the result is the correctly rounded one |
| `DoubleToInt`, `RoundTrips` | binary32, binary64 and binary128 to 128-bit integers, and the round trips between the two directions |
| `FieldOrder`, `FieldMatcher`, `ReflectionValidator`, `FieldMoves` | the two-cursor matcher of `tools/validate_reflection.py`, with an exact description of what it accepts |
| `Decimal`, `Symbols`, `Assets`, `AssetTheorems`, `AssetForm` | token symbols and amounts, the exact form of their text, and how parsing and printing relate |
| `Names`, `NameSuffixes`, `NameText` | account names packed into 64 bits, their text, and the suffix after the last dot |
| `UndoLog` | the permission visitor's undo log, refined against full snapshots |
| `ProducerSlots` | which producer a slot belongs to, and where a round starts |
| `MerkleDepth`, `Merkle`, `MerkleTags` | the bit tricks behind the tree depth; the batch and the incremental merkle root; what a root says of its leaves |
| `OrderStatistic`, `ProducerTables`, `HeaderStates`, `HeaderRules`, `DposQuorum`, `DposProgress`, `DposSafety`, `DposIrreversible`, `DposForks`, `DposRuns` | the block header state machine: which headers are accepted, confirmations, proposed and irreversible block numbers, schedule changes, chains that fork, and concrete runs |

Code that updates things step by step is modelled by methods and classes (`FloatUntiDf`, `FloatTiDf`,
`Reflection`, `PermissionVisitor`, `IncrementalMerkle`, `ConfirmBlocks`, ...). Each is proved equal to a
function, and the theorems are about that function. Pure code is modelled by functions.

## What does not hold as one might expect

Each of these keeps the code as it is and states exactly when the expected property holds. Where a
result is at stake, the failing family or a concrete input is proved as well.

- The signed float-to-integer conversions let exponent 127 pass the width guard, so a number in
  [2^127, 2^128) wraps instead of saturating (`SignedTruncatesIff`, `WrapsAtTop`, `PositiveTopWraps`).
  Signed overflow in the left shift and in the final multiplication is read as two's complement. As a
  consequence the signed round trip is right exactly below 2^127 - 2^73 (`SignedRoundTrip`).
- `asset::from_string` keeps the number of fraction digits in eight bits. A fraction of 256 digits or more
  can be accepted and then denotes another number, exactly unless the fraction is zero
  (`AcceptedDenotesIff`, `LongFractionMisread`).
- A symbol may have an empty name, and a NUL behind the space makes the parser accept one. Such an asset
  prints to a text that does not parse (`PrintParse`, `NamelessAccepted`).
- The fraction of an amount may have a sign of its own, which counts as a digit: "1.-5 CUR" is 0.95 CUR
  (`SignedFractionAccepted`). `AcceptedIff` describes all accepted texts.
- The 32-bit difference in the double-confirmation guard wraps when a header claims to confirm more
  blocks than there are (`GuardExactIff`). An accepted header's producer is new to all the blocks it
  confirms if and only if it claims no more than that or has made no block before (`RunNewConfirmerIff`).
  Without that, three blocks by one of four producers make a block proposed irreversible that only this one
  has confirmed (`ConfirmedTwice`). The quorum theorems are about runs in which every header meets it.
- A confirmation count has eight bits. It is exact if and only if a block needs at most 256
  confirmations (`CountExactIff`), which means at most 383 producers. With 384, every block is proposed
  irreversible as soon as it is made, by its producer alone (`QuorumLost`).
- The irreversible block number never falls while the schedule stays. It can fall after a new schedule
  takes over, exactly when two thirds or less of its producers back it (`AdvancesIff`). A run of eight
  blocks in which it falls from 3 to 0 is `FallsBehindChange`.
- A merkle root does not tell an odd list of leaves from the same list with its last leaf repeated
  (`RepeatedLast`). Nor does it tell two leaves apart that differ only in the bit that the left and right tags
  overwrite (`TagForgotten`, with two such leaves in `Twins`). Lists of one length above one that are alike but
  for that bit have the same root; and the same root means that they are alike, unless two different pairs
  among those hashed for them collide (`RootDetermines`).
- The incremental merkle tree starts again when its 64-bit node count wraps (`Append`).
- The search for the first block of the next round runs on 32-bit numbers and ends at 0 when the next
  multiple does not fit (`NextRoundFirstBlock`).
- `next_power_of_2` returns 0 for 0 and for numbers above 2^63 (`NextPowerIsLeast`). `clz_power_2`, described
  as a count of leading zeros, returns the exponent of its argument; `calcluate_max_depth` needs just that.
- The comment in `name_suffix` exempts leading dots. The code does not, and the model follows the code.
- In the matcher, the assertion at line 657 cannot fail, the one at line 693 is subsumed by the one at line
  649, the `processed` list is never read, and the message at line 524 has more placeholders than values
  (it ends the script either way). An `@swap` list may contain `id`; the matcher then treats the field as
  swapped and ignored at once, which `Prepared` shows to be harmless.
- `pop_undo` looks at the last saved size before asking whether there is one. With nothing saved the model
  counts that as the failed assertion.

## How the environment is modelled

- `fc::trim`, `fc::to_int64`, `fc::to_string` and `fc::safe<int64_t>` are not part of this model as code; they
  are `Trim`, `ToInt64`, `ToDecimal` and `Checked`. `__builtin_clzll` is the distance from 64 to the bit length.
- A symbol name of more than seven letters shifts a letter by 64 bits or more, which C++ leaves undefined.
  The model makes that an error of its own (`ShiftUndefined`).
- `std::nth_element` is the order statistic `Nth`, and `NthAtLeast` characterises it by counting.
- Merkle trees are generic in the pair hash. Where the left and right tags matter, the pair hash is any
  hash of two tagged digests, so nothing is assumed about SHA-256.
- Block ids are numbers that the headers carry, so nothing is assumed about how they are computed.
- A `flat_map` whose values are sorted afterwards is a sequence of entries without repeated keys
  (`DistinctKeys`, part of `Ordered`); its order does not matter to what is computed from it.
- Block numbers of the header state are unbounded; only the differences that can go below zero wrap.
- An active schedule is never empty: with an empty one the slot computation divides by zero.

## Model

| member | source | states |
|---|---|---|
| `IntToDouble.Clzti2` | libraries/builtins/int_t.h:45-52 | the branchless count is 128 less the number of significant bits, for every nonzero argument |
| `IntToDouble.Condense` | libraries/builtins/floatuntidf.c:35-53 | the normalised number is the 53-bit quotient followed by a correct round bit and a bit that is set exactly when anything below was |
| `IntToDouble.RoundingTrick` | libraries/builtins/floatuntidf.c:55-57 | or P into R, add one, drop two bits is division by a power of two rounded to nearest, ties to even |
| `IntToDouble.RoundSignificand` | libraries/builtins/floatuntidf.c:31-70 | after rounding and carry repair, significand and exponent together make up the pattern of the input |
| `IntToDouble.BranchlessAbs` | libraries/builtins/floattidf.c:31-32 | xor and subtract with the sign mask give the absolute value, also of -2^127 |
| `IntToDouble.FloatUntiDf` | libraries/builtins/floatuntidf.c:26-76 | the words written to the result form the pattern `NearestDouble`, for all 2^128 inputs |
| `IntToDouble.FloatTiDf` | libraries/builtins/floattidf.c:26-78 | the same for signed inputs, with the sign in bit 63 of the magnitude's pattern |
| `CorrectRounding.RoundsCorrectly` | libraries/builtins/floatuntidf.c:26-76 | no finite binary64 value is closer to the integer than the result, and on a tie the result is the even one |
| `CorrectRounding.ConversionDetermined` | libraries/builtins/floatuntidf.c:26-76 | a pattern is the nearest even one if and only if it is the one returned |
| `CorrectRounding.ConversionMonotone` | libraries/builtins/floatuntidf.c:33-75 | a larger integer never converts to a smaller pattern, across the exact, rounded and carrying cases |
| `CorrectRounding.ShortIsExact` | libraries/builtins/floatuntidf.c:66-70 | up to 53 significant bits the conversion is exact |
| `CorrectRounding.SignedRoundsCorrectly` | libraries/builtins/floattidf.c:26-78 | the signed result is the correctly rounded magnitude with the input's sign, and the conversion is odd |
| `CorrectRounding.SignedConversionMonotone` | libraries/builtins/floattidf.c:26-78 | the signed conversion is monotone in value |
| `DoubleToInt.UnsignedTruncates` | libraries/builtins/fixunsdfti.c:15-37 | for all three formats at once: the integer part below 2^128, all ones from there up, zero for every pattern with the sign bit |
| `DoubleToInt.SignedTruncatesIff` | libraries/builtins/fixdfti.c:16-41 | for all three formats: truncation toward zero with saturation, if and only if the pattern is not one that reaches the shift with exponent 127 unrepresentably |
| `DoubleToInt.WrapsAtTop` | libraries/builtins/fixdfti.c:33-39 | the value at exponent 127: off by 2^128, toward the other sign, except for -2^127 itself |
| `DoubleToInt.SignedMatchesUnsigned` | libraries/builtins/fixtfti.c:13-37 | up to exponent 126 the signed conversion is the sign times the unsigned conversion of the magnitude |
| `DoubleToInt.PositiveTopWraps` | libraries/builtins/fixdfti.c:26-39 | the binary64 number 2^127 converts to -2^127 although saturation would give 2^127 - 1 |
| `RoundTrips.RoundingError` | libraries/builtins/floatuntidf.c:33-69 | the error is at most half a unit in the last place, and none if and only if the dropped bits are zero |
| `RoundTrips.SaturatesIff` | libraries/builtins/floatuntidf.c:55-63 | the integers that round up to 2^128 are exactly those from 2^128 - 2^74 up |
| `RoundTrips.IntegerRoundTrip` | libraries/builtins/fixunsdfti.c:15-37 | integer to double and back: error at most 2^(sd-54), unchanged exactly when no bit is lost, all ones exactly from 2^128 - 2^74 up |
| `RoundTrips.DoubleRoundTrip` | libraries/builtins/fixunsdfti.c:15-37 | double to integer and back gives the pattern of the integer part, and the same 64 bits if and only if the double was an integer |
| `RoundTrips.SignedRoundTrip` | libraries/builtins/fixdfti.c:16-41 | signed round trip within half a unit and with the sign kept, if and only if the integer is below 2^127 - 2^73; from there up it returns -2^127 |
| `ReflectionValidator.Reflection.constructor` | tools/validate_reflection.py:382-388 | a new reflection has no fields and no annotations |
| `ReflectionValidator.Reflection.AddField` | tools/validate_reflection.py:533-537 | reflected fields stay distinct: a repeated one is refused and changes nothing |
| `ReflectionValidator.Reflection.AddIgnoreSwaps` | tools/validate_reflection.py:510-530 | accepted if and only if no listed name repeats or is annotated already; ignored and swapped stay distinct and disjoint; a refusal keeps the names before the offending one |
| `ReflectionValidator.Reflection.Validate` | tools/validate_reflection.py:624-694 | for distinct class fields, passes if and only if `Matches`: ignored fields are class fields, swapped ones are in both lists, the reflection is the class without the ignored ones, the rest has the same order, and no swapped field is already in order; every complaint names a defect that is there |
| `ReflectionValidator.Reflection.FinishReflection` | tools/validate_reflection.py:681-694 | the closing assertions decide the same question from any point where the class fields are used up |
| `FieldMatcher.BackStep` | tools/validate_reflection.py:645-652 | setting a class field aside keeps the invariant: set-aside fields are exactly the swapped ones seen on one side only, plain fields form equal prefixes, and no field already in order has been missed |
| `FieldMatcher.ForwardStep` | tools/validate_reflection.py:653-659 | the same for a reflected field set aside |
| `FieldMatcher.IgnoreStep` | tools/validate_reflection.py:661-667 | the same for an ignored field |
| `FieldMatcher.MeetBackStep` | tools/validate_reflection.py:669-671 | the same when the reflection reaches a field set aside in the class |
| `FieldMatcher.MeetForwardStep` | tools/validate_reflection.py:672-674 | the same when the class reaches a field set aside in the reflection |
| `FieldMatcher.PlainStep` | tools/validate_reflection.py:675-678 | the same when both sides advance over one plain field |
| `FieldMatcher.SwapInOrderIsRight` | tools/validate_reflection.py:650-650 | the assertion fires only on a reflection with a swapped field already in order |
| `FieldMatcher.WrongFieldIsRight` | tools/validate_reflection.py:676-676 | the assertion fires only when fields differ or plain fields are out of order |
| `FieldMatcher.UnknownFieldIsRight` | tools/validate_reflection.py:682-691 | left-over reflected fields mean that the lists differ |
| `FieldMatcher.LeftoverIsRight` | tools/validate_reflection.py:681-694 | what each left-over list proves about the annotations |
| `FieldMatcher.AcceptanceIsRight` | tools/validate_reflection.py:681-694 | with nothing left over, the reflection matches |
| `FieldMoves.MovedField` | tools/validate_reflection.py:19-24 | a class order with one field inserted elsewhere matches with just that field declared, if and only if the two positions differ |
| `FieldMoves.ExchangedNeighbours` | tools/validate_reflection.py:19-24 | for exchanged neighbours either one alone is accepted, and neither both nor none |
| `FieldMoves.FlagIsAnnotation` | tools/validate_reflection.py:624-630 | for a chainbase object the flag stands for ignoring `id`, and changes nothing when `id` is ignored or reflected already |
| `FieldMoves.UnreflectedId` | tools/validate_reflection.py:624-630 | a reflection of all fields but the `id`, wherever the class has it, matches exactly for such an object |
| `Symbols.SymbolParts` | libraries/chain/include/eosio/chain/symbol.hpp:40-53 | precision and name can be read back from the packed 64-bit value, for every name of up to seven capitals |
| `Symbols.SymbolRebuilt` | libraries/chain/include/eosio/chain/symbol.hpp:87-119 | a valid symbol is the packing of its own precision and name |
| `Symbols.SymbolBytes` | libraries/chain/include/eosio/chain/symbol.hpp:40-53 | the lowest byte is the precision, byte i + 1 is letter i, and the bytes above the name are zero |
| `Symbols.StringToSymbol` | libraries/chain/include/eosio/chain/symbol.hpp:40-53 | the loop of shifts and ors packs the name as a base-256 number above the precision, or refuses the first letter out of range |
| `Symbols.SymbolName` | libraries/chain/include/eosio/chain/symbol.hpp:108-119 | the loop unpacks that number |
| `Symbols.Precision` | libraries/chain/include/eosio/chain/symbol.hpp:98-107 | ten to the number of decimals, without overflow, and an error above 18 decimals |
| `Assets.ToString` | libraries/chain/asset.cpp:23-33 | prints sign, integer part, and the fraction padded to exactly the number of decimals |
| `Assets.FromString` | libraries/chain/asset.cpp:35-78 | decides every text as `Parsed` does, with the first error the code meets |
| `AssetTheorems.JoinedAccepted` | libraries/chain/asset.cpp:35-78 | a text made of white space, a number with optional signs on whole part and fraction, a space, and a name up to a NUL is accepted if and only if its numbers are in range, with exactly its amount |
| `AssetTheorems.AcceptedIff` | libraries/chain/asset.cpp:35-78 | no other text is accepted |
| `AssetTheorems.SignedFractionAccepted` | libraries/chain/asset.cpp:66-68 | "1.-5 CUR" is accepted as 0.95 CUR |
| `AssetTheorems.NamelessAccepted` | libraries/chain/include/eosio/chain/symbol.hpp:81-83 | a name hidden behind a NUL is accepted as no name, and the result does not parse again |
| `AssetTheorems.WellFormedAccepted` | libraries/chain/asset.cpp:35-78 | a decimal number and a symbol, with any white space: accepted if and only if the eight-bit digit count is at most 18 and the amount is below 2^62 in magnitude, with exactly that amount |
| `AssetForm.ShortFractionExact` | libraries/chain/asset.cpp:46-77 | with at most 18 fraction digits, a text is accepted if and only if the number written is below 2^62 in smallest units, and yields that number, those decimals and that name |
| `AssetForm.LongFractionRefused` | libraries/chain/include/eosio/chain/symbol.hpp:80-82 | with 19 to 255 fraction digits it is refused for its precision |
| `AssetForm.ValidIff` | libraries/chain/include/eosio/chain/asset.hpp:23-32 | an asset is valid exactly below 2^62, with at most 18 decimals and a name of at most seven capital letters |
| `AssetForm.PrintedForm` | libraries/chain/asset.cpp:23-33 | a valid asset is printed with a minus sign exactly for a negative amount, no superfluous zero in front, exactly its decimals behind the point, one space and its name |
| `AssetForm.FormIsUnique` | libraries/chain/asset.cpp:23-33 | a text of that form that stands for an asset is the one printed for it |
| `AssetForm.CanonicalReprinted` | libraries/chain/asset.cpp:23-78 | an accepted text of that form is printed again letter by letter |
| `AssetForm.IntegersFit` | libraries/chain/asset.cpp:66-70 | whole part and fraction are read exactly within the signed 64-bit range |
| `AssetForm.PaddingIgnored` | libraries/chain/asset.cpp:38-38 | white space around a text does not matter |
| `AssetForm.NoSpaceIff` | libraries/chain/asset.cpp:41-42 | a text is refused for a missing space exactly when it has none inside |
| `AssetForm.DanglingPoint` | libraries/chain/asset.cpp:47-50 | a point without a fraction is refused |
| `AssetTheorems.UnsignedInRange` | libraries/chain/asset.cpp:73-77 | with a fraction that has no sign of its own, the checked multiplication and addition reject nothing that the final bound would accept |
| `AssetTheorems.AcceptedDenotesIff` | libraries/chain/asset.cpp:54-61 | an accepted amount denotes the number written, sign included, if and only if the fraction has fewer than 256 digits or is zero |
| `AssetTheorems.LongFractionMisread` | libraries/chain/include/eosio/chain/symbol.hpp:80-83 | a 256-digit fraction that is accepted as another number |
| `AssetTheorems.PrintParse` | libraries/chain/asset.cpp:23-78 | parsing undoes printing for every valid asset with a symbol name, and fails without one |
| `AssetTheorems.ParsedIsValid` | libraries/chain/include/eosio/chain/asset.hpp:25-31 | what is parsed satisfies the class invariant |
| `AssetTheorems.ReparseStable` | libraries/chain/asset.cpp:23-78 | printing and parsing again changes nothing, if and only if the symbol has a name |
| `AssetTheorems.TextInjective` | libraries/chain/asset.cpp:23-33 | different valid assets print differently |
| `Names.EncodeChars` | libraries/chain/include/eosio/chain/name.hpp:17-20 | every 64-bit number is the packing of its twelve five-bit and one four-bit characters |
| `Names.CharsEncode` | libraries/chain/include/eosio/chain/name.hpp:17-20 | and every such list of characters is read back from its packing |
| `NameSuffixes.NameSuffix` | unittests/misc_tests.cpp:90-118 | the result has the characters after the last dot that precedes the last character, left-justified, or all of them when there is no such dot |
| `NameSuffixes.SuffixTrimmed` | unittests/misc_tests.cpp:90-118 | without trailing dots, the suffix is what follows the last dot |
| `NameSuffixes.SuffixIdempotent` | unittests/misc_tests.cpp:90-118 | the suffix of a suffix is itself |
| `NameText.StringToName` | libraries/chain/include/eosio/chain/name.hpp:21-38 | packs the first thirteen characters, the thirteenth cut to four bits |
| `NameText.ToString` | libraries/chain/name.cpp:19-33 | spells the packed characters without trailing dots |
| `NameText.SetName` | libraries/chain/name.cpp:9-16 | accepts exactly the normal texts (at most thirteen name characters, no trailing dot, thirteenth within four bits) and then prints back the same text |
| `NameText.ReadWritten` | libraries/chain/name.cpp:19-33 | reading a written name gives the same 64 bits, for all of them |
| `NameText.WrittenReadIff` | libraries/chain/name.cpp:9-16 | writing a read text gives the same text if and only if it is normal |
| `NameText.TextIsNormal` | libraries/chain/name.cpp:19-33 | every written name is a normal text |
| `NameText.SuffixText` | unittests/misc_tests.cpp:90-118 | on texts, the suffix is what follows the last dot |
| `UndoLog.PermissionVisitor.constructor` | unittests/misc_tests.cpp:280-285 | starts with no permissions and nothing saved |
| `UndoLog.PermissionVisitor.Visit` | unittests/misc_tests.cpp:287-289 | appends the permission and leaves the saved sizes alone |
| `UndoLog.PermissionVisitor.PushUndo` | unittests/misc_tests.cpp:293-297 | saves the current size |
| `UndoLog.PermissionVisitor.PopUndo` | unittests/misc_tests.cpp:299-306 | cuts back to the saved size, or fails and changes nothing |
| `UndoLog.PermissionVisitor.SquashUndo` | unittests/misc_tests.cpp:308-313 | forgets the saved size and keeps the list, or fails and changes nothing |
| `UndoLog.ApplyRefines` | unittests/misc_tests.cpp:280-315 | each operation on lengths is the same operation on full snapshots, and saved sizes stay sorted and within the list |
| `UndoLog.RunRefines` | unittests/misc_tests.cpp:280-315 | so is every run, failing ones included |
| `UndoLog.RunsIff` | unittests/misc_tests.cpp:299-313 | a run fails exactly when it closes a level that is not open |
| `UndoLog.PopRestores` | unittests/misc_tests.cpp:299-306 | push, any well-nested operations, pop: the state is as before |
| `UndoLog.SquashMerges` | unittests/misc_tests.cpp:308-313 | push, any well-nested operations, squash: as if the level had never been opened |
| `ProducerSlots.FairWindow` | unittests/producer_schedule_tests.cpp:25-28 | every window of one round's length, wherever it starts, gives every producer exactly its repetitions |
| `ProducerSlots.SlotOwner` | unittests/producer_schedule_tests.cpp:25-28 | in every round, slot k of the p-th turn belongs to the p-th producer of the schedule |
| `ProducerSlots.NextRoundFirstBlock` | unittests/producer_schedule_tests.cpp:42-49 | the loop ends at the least multiple of the round length above the head, or at 0 when that does not fit 32 bits |
| `ProducerSlots.NextMultipleIsLeast` | unittests/producer_schedule_tests.cpp:42-49 | no smaller number above the head is a multiple |
| `ProducerSlots.RoundStartsAtFirst` | unittests/producer_schedule_tests.cpp:25-28 | such a number, taken as a slot, belongs to the first producer |
| `MerkleDepth.NextPowerIsLeast` | libraries/chain/include/eosio/chain/incremental_merkle.hpp:10-27 | the smearing computes the least power of two not below its argument up to 2^63, and 0 otherwise |
| `MerkleDepth.SmearStep` | libraries/chain/include/eosio/chain/incremental_merkle.hpp:19-24 | each smearing step doubles the number of leading ones and keeps the length |
| `MerkleDepth.MasksAreStripes` | libraries/chain/include/eosio/chain/incremental_merkle.hpp:42-47 | the six constants are alternating stripes of ones and zeros of widths 32 down to 1 |
| `MerkleDepth.ClzOfPower` | libraries/chain/include/eosio/chain/incremental_merkle.hpp:38-50 | on every power of two below 2^64 the mask tests sum to its exponent |
| `MerkleDepth.MaxDepth` | libraries/chain/include/eosio/chain/incremental_merkle.hpp:59-65 | the depth is one more than the number of binary digits of the last index, 0 for an empty tree |
| `Merkle.BatchRoot` | libraries/chain/merkle.cpp:35-50 | the in-place folding computes `Root` of the leaves, and the empty digest for none |
| `Merkle.IncrementalMerkle.constructor` | libraries/chain/include/eosio/chain/incremental_merkle.hpp:96-98 | stands for no leaves |
| `Merkle.IncrementalMerkle.Append` | libraries/chain/include/eosio/chain/incremental_merkle.hpp:168-226 | one climb over the kept nodes returns the root that the batch computation gives for all leaves appended so far, and keeps exactly the complete subtrees' roots and the root; when the node count wraps, the tree is empty again |
| `Merkle.IncrementalMerkle.GetRoot` | libraries/chain/include/eosio/chain/incremental_merkle.hpp:233-239 | the root of all leaves appended so far |
| `Merkle.ClimbEven` | libraries/chain/include/eosio/chain/incremental_merkle.hpp:178-192 | pairing with an implied right neighbour keeps root and complete subtrees |
| `Merkle.ClimbOdd` | libraries/chain/include/eosio/chain/incremental_merkle.hpp:193-208 | the left neighbour of a right node is the next kept node, and pairing with it keeps root and complete subtrees |
| `Merkle.SinglePeak` | libraries/chain/include/eosio/chain/incremental_merkle.hpp:157-162 | when one complete subtree covers all leaves, its root is the root |
| `Merkle.RealizedStable` | libraries/chain/include/eosio/chain/incremental_merkle.hpp:89-92 | a node whose subtree is complete never changes when leaves are appended |
| `Merkle.RealizedIsRoot` | libraries/chain/include/eosio/chain/incremental_merkle.hpp:81-92 | such a node is the root of its own leaves |
| `Merkle.RootOfHalves` | libraries/chain/merkle.cpp:42-44 | the root over two complete halves is the hash of their roots, the left one first |
| `MerkleTags.TagsMark` | libraries/chain/merkle.cpp:14-32 | the tags make the two sides recognisable, forget the same one bit on both and nothing else, leave the other words alone, and leave a digest alone that has the tag |
| `MerkleTags.TagForgotten` | libraries/chain/merkle.cpp:14-24 | two leaves that differ only in that bit give the same root |
| `MerkleTags.Twins` | libraries/chain/merkle.cpp:14-24 | two different digests that differ only in that bit |
| `MerkleTags.RootDetermines` | libraries/chain/merkle.cpp:35-50 | of two lists of one length above one: leaves alike but for that bit give the same root, and roots that are alike mean leaves that are alike, unless two different pairs hashed for the lists have hashes that are alike |
| `Merkle.RepeatedLast` | libraries/chain/merkle.cpp:39-40 | an odd list and the same with its last leaf repeated have the same root |
| `OrderStatistic.NthAtLeast` | libraries/chain/block_header_state.cpp:27-29 | the k-th smallest number reaches w if and only if all but at most k numbers do |
| `HeaderStates.ConfirmBlocks` | libraries/chain/block_header_state.cpp:84-108 | the loop lowers the counts of the confirmed blocks; the newest one to reach zero is proposed and everything up to it dropped |
| `HeaderStates.CalcLastIrreversible` | libraries/chain/block_header_state.cpp:18-30 | the number reaches w if and only if more than two thirds of the producers imply a block of at least w |
| `HeaderStates.PromoteProduced` | libraries/chain/block_header_state.cpp:120-134 | known producers keep their last block, new ones start at the irreversible block, the current one has this block |
| `HeaderStates.PromoteImplied` | libraries/chain/block_header_state.cpp:138-151 | exactly the producers of the new schedule have an entry: the current one with the proposed block, known ones with the one they had, newcomers with the irreversible block |
| `HeaderStates.BuildNext` | libraries/chain/block_header_state.cpp:32-258 | the state after an accepted header, and for every other header the first check that refuses it: time, double confirmation, previous block, producer, schedule versions, pending schedules |
| `HeaderStates.RequiredIsLeast` | libraries/chain/block_header_state.cpp:70-71 | the number of confirmations is the least above two thirds of the schedule |
| `HeaderRules.AcceptedIff` | libraries/chain/block_header_state.cpp:32-213 | a header is accepted exactly when its slot is later, it names the head, it is by the producer of its slot, its confirmations pass the guard, it has the version in force, and it proposes a schedule only with the next version and when none is waiting |
| `HeaderRules.RefusedIsFaulty` | libraries/chain/block_header_state.cpp:37-213 | a refusal names something that is wrong with the header |
| `HeaderRules.RunLinked` | libraries/chain/block_header_state.cpp:32-258 | over every accepted run, each header names the id of the one before it, has a later slot, and is by the producer of that slot |
| `HeaderRules.TakeoverIff` | libraries/chain/block_header_state.cpp:115-118 | a waiting schedule takes over exactly when the block that proposed it is irreversible |
| `HeaderRules.RunSchedules` | libraries/chain/block_header_state.cpp:208-253 | over every accepted run, the schedule in force is the genesis one or was proposed by a header whose block was irreversible when it took over, and the one waiting was proposed by a header, with the next version |
| `DposQuorum.GuardExactIff` | libraries/chain/block_header_state.cpp:45-51 | the guard refuses exactly the headers that confirm a block up to the producer's last one, if and only if the header reaches back no further than block zero |
| `DposQuorum.RunNewConfirmerIff` | libraries/chain/block_header_state.cpp:45-51 | after every accepted run from genesis, over any number of schedule changes, the producer of a further accepted header has confirmed none of the blocks it confirms, if and only if the header reaches back no further than block zero or the producer has made no block |
| `DposQuorum.CountExactIff` | libraries/chain/block_header_state.cpp:67-82 | an eight-bit count first reaches zero after as many confirmations as are needed, if and only if those are at most 256 |
| `DposQuorum.QuorumLost` | libraries/chain/block_header_state.cpp:67-108 | under a schedule that needs one more than a multiple of 256, every accepted block is proposed irreversible with its producer as the only confirmer |
| `DposQuorum.RecordedStep` | libraries/chain/block_header_state.cpp:115-162 | no accepted header makes the tables forget a block that its producer could confirm again |
| `DposQuorum.RunGrounded` | libraries/chain/block_header_state.cpp:115-162 | over every accepted run, the tables have every block of every producer on record that way |
| `DposQuorum.LoweredCounted` | libraries/chain/block_header_state.cpp:84-108 | a count and the different producers that have confirmed the block always add up to what the block needs |
| `DposQuorum.StepKeeps` | libraries/chain/block_header_state.cpp:32-258 | an accepted header keeps all of that |
| `DposQuorum.ProposedHasQuorum` | libraries/chain/block_header_state.cpp:69-110 | over every run from genesis whose accepted headers meet these two conditions, a proposed irreversible block has been confirmed by different producers numbering more than two thirds of the schedule it was built under |
| `DposProgress.ProposedIsGreatest` | libraries/chain/block_header_state.cpp:69-110 | over every such run, no block among the newest 1024 that has its quorum is newer than the proposed one |
| `DposProgress.ProposedIsRecent` | libraries/chain/block_header_state.cpp:73-82 | a header moves the proposed number only to one of the newest 1024 blocks |
| `DposRuns.ConfirmedTwice` | libraries/chain/block_header_state.cpp:45-51 | an accepted run that does not meet the first, whose proposed block has one confirmer where four producers need three |
| `DposSafety.IrreversibleHasQuorum` | libraries/chain/block_header_state.cpp:110-162 | over every such run, so has the block that is irreversible |
| `DposRuns.SoleProducer` | libraries/chain/controller.cpp:430-439 | over every accepted run of a one-producer genesis without a new schedule, the newest block is proposed irreversible, and from the second on the one before it is irreversible |
| `DposRuns.SoleContinues` | libraries/chain/block_header_state.cpp:37-51 | such a run goes on with every header for a later slot that names its place and confirms no other block |
| `DposForks.SharedConfirmers` | libraries/chain/block_header_state.cpp:69-111 | of two such runs with a common prefix and no new schedule after it, more than a third of the producers have confirmed both any later block that one backs and any later block that the other backs |
| `DposForks.ConfirmersScheduled` | libraries/chain/block_header_state.cpp:43-61 | only producers of the schedule in force confirm the blocks built under it, as long as it stays |
| `DposIrreversible.ReachedIff` | libraries/chain/block_header_state.cpp:23-29 | the two-thirds reading of the comment, both ways |
| `DposIrreversible.StepOrdered` | libraries/chain/block_header_state.cpp:84-111 | the proposed number never falls, and the new irreversible number is at most the proposed one before |
| `DposIrreversible.RunOrdered` | libraries/chain/block_header_state.cpp:84-162 | over every accepted run, irreversible <= proposed <= newest |
| `DposIrreversible.AdvancesIff` | libraries/chain/block_header_state.cpp:110-162 | of two accepted headers in a row the second does not lower the irreversible number, if and only if the first did not bring in a schedule of whose producers two thirds or less back it |
| `DposRuns.FallsBehindChange` | libraries/chain/block_header_state.cpp:115-155 | a run from genesis that meets the conditions of the quorum theorems and in which the number falls from 3 to 0 |

## Left out

- HeaderStates.BuildNext: does not model signatures and signing keys, protocol feature extensions, schedule hashes or the block merkle root inside the header state, nor 32-bit wrap-around of block numbers themselves.
- DposForks.SharedConfirmers: compares chains whose schedule stays the same from the fork on; across a later change of schedule nothing is stated.
- UndoLog.PermissionVisitor.Visit: logging is left out.
- ReflectionValidator.Reflection.Validate: takes the field lists as given; scopes, comments, the reflection macros and the annotations are found by regular expressions that are not modelled.
- Merkle proofs: no code in the modelled files builds or checks them.
- Floating-point values other than their bit patterns: NaN payloads and rounding modes other than the one implemented do not occur in these conversions.
- The controller, fork database, resource limits, authorization, ABI serialization, protocol features, the network plugins and the wallet: whole subsystems with other concerns than the ones proved here.
- `symbol::to_string`, `asset::to_real`, comparison operators and stream operators: they would only add easy members.
