# SharedUtility macros of Mac Mouse Fix, modelled in Dafny

This project models two groups of preprocessor macros in
`Shared/Utility/SharedUtility.h` and proves what they promise.

**`binarystring(v)`** (`binary_string.dfy`, module `BinaryString`). The macro
turns an integer of `n = sizeof(v)` bytes into a text of `'0'`/`'1'` digits,
most significant bit first, with a space after every 8 digits.

- `BinaryString.BinaryString` is the macro's statement expression, written as
  a method.
  - It allocates the `char` buffer of `bit_str_len + 1` cells and writes the NUL.
  - It fills the buffer from the last cell down, writing a space where
    `i % 9 == 8` and otherwise the low bit, then shifting the value right by one.
  - It reads the buffer back as `stringWithUTF8String` does: up to the first NUL.
- The value is an unbounded `int`. `m_value & 1` is Dafny's Euclidean
  `m_value % 2`, and the arithmetic `m_value >> 1` is floor division `m_value / 2`.
  So one model covers signed and unsigned types.
- The result is proved equal to a specification function `BitPattern`, which
  groups the low `8 * n` bits. The lemmas then prove:
  - the text's layout;
  - its round trip back to `v mod 2^(8n)`;
  - that it is injective on the range of an unsigned and of a signed `n`-byte type;
  - the all-zero pattern for 0.

**The switch macros** (`switch_macros.dfy`, module `SwitchMacros`):
`fcase`, `bcase`, `fdefault` and `bdefault`.

- Expansion:
  - `_fcase_1` … `_fcase_7` and `_fcase_selector` are modelled argument by
    argument: `fcase` appends the names `_fcase_7` … `_fcase_1` to its values,
    and the selector picks the eighth argument.
  - With 8 or more values the selector returns the eighth value, so the text
    is `v8(v1, …, vn)` rather than a `case` label, and the compiler rejects it
    (`None`).
- Execution:
  - A preprocessed switch body is a flat list of `break;`, `case v:`,
    `default:` and arm bodies (each arm body is named by its action).
  - `Execute` interprets it as C does: jump to the first matching `case`, else
    to `default`, else past the switch; then run until a `break;` or the end.
- The main theorem, `ExecuteIsArmRun`, proves that running the expansion is the
  arm-level meaning the macros are designed to have:
  - the switch enters the first arm listing `x`, or else the default arm;
  - that arm's body runs, and control falls into the next arm exactly when
    that arm is written with `fcase`/`fdefault`.
- The documented example is proved to expand as documented and to behave like
  the traditional switch.

## Model

| member | source | states |
|---|---|---|
| `BinaryString.BinaryString` | Shared/Utility/SharedUtility.h:143-161 | The text built in the buffer and read back up to the NUL is `BitPattern(n, v)`, of length `bit_str_len = 9n - 1`; the value is shifted exactly `8n` times |
| `BinaryString.PatternLength` | Shared/Utility/SharedUtility.h:147-149 | The pattern is `nibble_count * (nibble_size + 1) - 1` characters long |
| `BinaryString.PatternAt` | Shared/Utility/SharedUtility.h:152-158 | Position `i` holds a space when `i % 9 == 8`, and otherwise the digit of bit `8n - 1 - (i - i / 9)` of `v` |
| `BinaryString.PatternLayout` | Shared/Utility/SharedUtility.h:149-158 | The length is `9n - 1`; a position is a space exactly when `i % 9 == 8`; every other position is `'0'` or `'1'` |
| `BinaryString.PatternEnds` | Shared/Utility/SharedUtility.h:149-154 | The text neither starts nor ends with a space |
| `BinaryString.PatternHasNoNul` | Shared/Utility/SharedUtility.h:150-160 | The pattern holds no NUL, so the NUL written at `bit_str_len` is the first one |
| `BinaryString.CStringOfTerminated` | Shared/Utility/SharedUtility.h:151-160 | Reading a buffer as a C string gives everything before the terminator, when the text before it holds no NUL |
| `BinaryString.BitsAt` | Shared/Utility/SharedUtility.h:156-157 | Digit `j` of the `k` low bits is the low bit of `v` after `k - 1 - j` shifts |
| `BinaryString.ShiftedHalf` | Shared/Utility/SharedUtility.h:157 | Shifting `v / 2` `k` times is shifting `v` `k + 1` times |
| `BinaryString.BitsAreDigits` | Shared/Utility/SharedUtility.h:156 | Every digit written is `'0'` or `'1'` |
| `BinaryString.UngroupGrouped` | Shared/Utility/SharedUtility.h:153-154 | Dropping the separating spaces gives back the digits |
| `BinaryString.ParseBits` | Shared/Utility/SharedUtility.h:156-157 | The `k` digits read in base 2 are `v mod 2^k` |
| `BinaryString.BitsOfParse` | Shared/Utility/SharedUtility.h:156-157 | Reading a digit text in base 2 and writing its `|s|` low bits gives the text back |
| `BinaryString.RoundTrip` | Shared/Utility/SharedUtility.h:143-161 | The text without spaces, read in base 2, is `v mod 2^(8n)` |
| `BinaryString.RoundTripUnsigned` | Shared/Utility/SharedUtility.h:143-161 | For a value in an unsigned `n`-byte range, the text reads back as `v` itself |
| `BinaryString.RoundTripSigned` | Shared/Utility/SharedUtility.h:143-161 | For a negative value of a signed `n`-byte type, the text reads back as its two's-complement pattern `v + 2^(8n)` |
| `BinaryString.LowBitsOnly` | Shared/Utility/SharedUtility.h:146-157 | Only the low `8n` bits of the value reach the text |
| `BinaryString.PatternInjective` | Shared/Utility/SharedUtility.h:143-161 | Distinct values of the unsigned `n`-byte range give distinct texts |
| `BinaryString.PatternInjectiveSigned` | Shared/Utility/SharedUtility.h:143-161 | Distinct values of the signed `n`-byte range, from `-2^(8n-1)` up to `2^(8n-1) - 1`, give distinct texts |
| `BinaryString.ShiftedZero` | Shared/Utility/SharedUtility.h:157 | Shifting 0 gives 0 |
| `BinaryString.ZeroPattern` | Shared/Utility/SharedUtility.h:152-158 | The value 0 gives `'0'` at every non-space position |
| `SwitchMacros.FcaseNExpansion` | Shared/Utility/SharedUtility.h:83-89 | `_fcase_k` expands exactly when it is given `k` values (1 <= k <= 7), to one `case` label per value, in order |
| `SwitchMacros.SelectorPicksArity` | Shared/Utility/SharedUtility.h:91-94 | For `n <= 7` values the selector picks `_fcase_n`; for more it picks the eighth value |
| `SwitchMacros.ValuesAt` | Shared/Utility/SharedUtility.h:94 | The values passed on to the selector keep their order |
| `SwitchMacros.FcaseExpansion` | Shared/Utility/SharedUtility.h:83-94 | `fcase(v1, …, vn)` expands exactly when `1 <= n <= 7`, to `case v1: … case vn` in order |
| `SwitchMacros.BcaseExpansion` | Shared/Utility/SharedUtility.h:101-102 | `bcase(v1, …, vn)` is `break;` followed by the expansion of `fcase(v1, …, vn)`, and expands exactly when it does |
| `SwitchMacros.BreakingHead` | Shared/Utility/SharedUtility.h:98-102 | The definitional unfolding: `bcase`/`bdefault` are `break;` followed by `fcase`/`fdefault` with the same values (the content is stated by `BcaseExpansion` and `HeadShape`) |
| `SwitchMacros.CaseLabelsShape` | Shared/Utility/SharedUtility.h:83-89 | The labels of a value list are all `case` labels, carrying exactly the listed values |
| `SwitchMacros.HeadShape` | Shared/Utility/SharedUtility.h:78-102 | A macro's expansion starts with `break;` exactly for `bcase`/`bdefault`; everything else in it is a label; it carries exactly the labels the arm lists |
| `SwitchMacros.HeadDefined` | Shared/Utility/SharedUtility.h:91-102 | An arm's macro expands exactly when it lists at most 7 values |
| `SwitchMacros.ExpandSwitchDefined` | Shared/Utility/SharedUtility.h:91-102 | A switch expands exactly when every `fcase`/`bcase` in it lists at most 7 values |
| `SwitchMacros.FirstIndex` | Shared/Utility/SharedUtility.h:36-53 | The `case`/`default` a C switch jumps to: the first occurrence of the label, or none when it is absent |
| `SwitchMacros.FirstArm` | Shared/Utility/SharedUtility.h:36-44 | The first arm carrying a label, or none when no arm carries it |
| `SwitchMacros.FirstIndexInPrefix` | Shared/Utility/SharedUtility.h:47-52 | A label in an earlier part of the body is found there |
| `SwitchMacros.FirstIndexPastPrefix` | Shared/Utility/SharedUtility.h:47-52 | A label missing from an earlier part is found in the later part, shifted by the earlier part's length |
| `SwitchMacros.RunFromShift` | Shared/Utility/SharedUtility.h:47-52 | Running past the end of one part of the body continues in the next |
| `SwitchMacros.RunFromLabels` | Shared/Utility/SharedUtility.h:47-52 | Labels are passed over when running |
| `SwitchMacros.RunFromArmBody` | Shared/Utility/SharedUtility.h:47-52 | Entering an arm at one of its labels runs its body and goes on into the following arms' expansion |
| `SwitchMacros.RunFromStart` | Shared/Utility/SharedUtility.h:47-52 | Running a switch from its start runs nothing when the first arm is `bcase`/`bdefault`, and that arm's fall-through chain otherwise |
| `SwitchMacros.RunFromArm` | Shared/Utility/SharedUtility.h:47-52 | Entering the first arm at one of its labels runs that arm's fall-through chain |
| `SwitchMacros.LabelLater` | Shared/Utility/SharedUtility.h:47-52 | When the first arm does not carry a label, the switch finds it in the later arms and runs the same from there |
| `SwitchMacros.LabelHere` | Shared/Utility/SharedUtility.h:47-52 | When the first arm carries a label, the switch finds it in that arm and runs the arm's chain |
| `SwitchMacros.LabelEntry` | Shared/Utility/SharedUtility.h:47-52 | The first occurrence of a label in the expansion exists exactly when some arm carries it, and running from it gives the chain of the first such arm |
| `SwitchMacros.ExecuteIsArmRun` | Shared/Utility/SharedUtility.h:31-53 | Running the expanded switch on `x` equals the arm semantics: enter the first arm listing `x` (else the default arm), run its body and fall into following arms while they are `fcase`/`fdefault` |
| `SwitchMacros.ChainShape` | Shared/Utility/SharedUtility.h:33-34 | The chain from an arm runs exactly the bodies up to, not including, the next `bcase`/`bdefault` arm |
| `SwitchMacros.FallThrough` | Shared/Utility/SharedUtility.h:33-34 | From the arm `x` enters, the switch runs the bodies of that arm and of every following `fcase`/`fdefault` arm, stopping before the first `bcase`/`bdefault` arm |
| `SwitchMacros.NoEntryRunsNothing` | Shared/Utility/SharedUtility.h:36-53 | When no arm lists `x` and there is no default arm, nothing runs |
| `SwitchMacros.SkipPast` | Shared/Utility/SharedUtility.h:47-52 | Past a prefix without a label, the switch finds the label in the rest and runs the same from there |
| `SwitchMacros.BreakFirstIgnored` | Shared/Utility/SharedUtility.h:48 | A `break;` in front of a switch body changes nothing the switch runs |
| `SwitchMacros.SwitchPrepend` | Shared/Utility/SharedUtility.h:47-52 | Putting an arm in front of a switch puts its labels and body in front of the expansion |
| `SwitchMacros.PlainFirstExpansion` | Shared/Utility/SharedUtility.h:47-52 | The switch with its first arm rewritten with `fcase`/`fdefault` expands to that arm's labels, its body, then the rest |
| `SwitchMacros.LeadingBreakExpansion` | Shared/Utility/SharedUtility.h:48 | Writing the first arm with `bcase`/`bdefault` adds exactly one `break;` in front of the expansion |
| `SwitchMacros.LeadingBreakIgnored` | Shared/Utility/SharedUtility.h:48 | That leading `break;` is ignored: the switch runs the same as with `fcase`/`fdefault` in the first arm |
| `SwitchMacros.DocArms` | Shared/Utility/SharedUtility.h:38-51 | Each arm of the documented example expands to the line shown for it |
| `SwitchMacros.DocExampleExpands` | Shared/Utility/SharedUtility.h:36-53 | The documented example expands to `break; case A: doA(); break; case B: case C: doBC(); case D: doBCD(); break; default: doDefault();` |
| `SwitchMacros.DocEntry` | Shared/Utility/SharedUtility.h:38-43 | For distinct `A`..`D`, `x` enters the arm listing it, and any other `x` enters the default arm |
| `SwitchMacros.DocExampleRuns` | Shared/Utility/SharedUtility.h:38-53 | `x = A` runs doA; `x = B` or `C` runs doBC then doBCD; `x = D` runs doBCD; any other `x` runs doDefault |
| `SwitchMacros.DocTraditionalRuns` | Shared/Utility/SharedUtility.h:56-68 | Running the traditional switch from each of its labels gives the documented bodies |
| `SwitchMacros.DocTraditionalExecutes` | Shared/Utility/SharedUtility.h:56-68 | The traditional switch runs the same outcomes for every `x` |
| `SwitchMacros.DocExampleMatchesTraditional` | Shared/Utility/SharedUtility.h:54-69 | The macro switch and the traditional switch run the same bodies for every `x` |

## Left out

- `Shared/License/License.h` is only declarations: enums, interfaces and
  error codes, plus commented-out notes. The license-resolution logic behind
  those declarations is not part of this model.
- `isclass`, `threadlocal`, `stringf` and `CF_IS_TAGGED_OBJ` are left out.
  They are thin wrappers over Objective-C runtime calls, thread dictionaries
  and string formatting.
- The `SharedUtility` class methods are left out. They are declarations of
  Objective-C methods whose bodies are not part of this model.
- `MFPlistEncoder.h`, `MFCoding.h` and `MFDataClassDictionaryDecoder.h` are
  left out. They declare Objective-C coding interfaces only.
- `BinaryString.BinaryString`: the type is given by its byte count `n`. Its
  value range is stated as preconditions of the round-trip lemmas, not as a
  type of the method's argument.
- `BinaryString.BinaryString`: the `NSString` result is a sequence of
  characters. Memory for the buffer and the Objective-C object are not modelled.
- `SwitchMacros.Execute`: each arm body is a single named action that runs to
  its end. A `break`, `return` or nested switch inside an arm body is not
  modelled.
- `SwitchMacros.Execute`: a C compiler rejects a switch with two equal `case`
  values or two `default` labels. The model does not reject it; it jumps to
  the first one.
- `SwitchMacros.Fcase`: an `fcase()` with no values at all, and arguments that
  are not integer constant expressions, are not modelled. The value list always
  has a first value.
