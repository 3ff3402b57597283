# Il2CppDumper core logic in Dafny

Il2CppDumper reads a Unity IL2CPP binary (ELF, PE, Mach-O, NSO) together with
its `global-metadata.dat`. From them it recovers the C# declarations (`dump.cs`)
and an IDA script. This project models three self-contained parts of it and
proves what they compute.

- **ArmHelper** (`arm_helper.dfy`, with `bits.dfy`) covers the immediate decoders.
  - `DecodeMov` handles a Thumb-2 MOVW/MOVT pair: ARMv7-A/R Architecture Reference Manual, A8.8.102 encoding T3 and A8.8.106.
  - `DecodeAdr`, `DecodeAdrp` and `DecodeAdd` handle the A64 ADR, ADRP and ADD (immediate) encodings: Arm Architecture Reference Manual for A-profile, section C6.2.
  - The A64 decoders are methods. Each builds the binary string in a loop and slices it. Each is proved equal to the architectural meaning of the instruction fields.
- **ScriptGenerator** covers the formatting decisions.
  - The method, type, field and parameter modifier keywords come from ECMA-335 Partition II flags (`modifiers.dfy`, with `keywords.dfy`). The modifier-text parser is shared with the proofs.
  - The `GetModifiers` memo table is a class over a map.
  - The property declaration line.
  - Identifier sanitising and literal escaping (`identifiers.dfy`).
  - The MakeFunction boundary list (`make_function.dfy`).
- **Program** covers input classification (`program.dfy`, with `unity_version.dfy`):
  - which file is the metadata;
  - the metadata magic check;
  - the metadata version fix-up from the typed Unity version;
  - executable dispatch on the leading magic, including the fat Mach-O re-dispatch;
  - the mode key.

On representation:
- Integers are bounded subset types of `int`: `byte`, `u16`, `u32` and `u64`.
- C# wrap-around is written out where it can occur (`Int32`, `% TWO_64`).
- Metadata versions are integers in tenths: 24.2 is 242.
- A C# exception is `None` or an `Err`.

## Model

| member | source | states |
|---|---|---|
| ArmHelper.DecodeMov | Il2CppDumper/Utils/ArmHelper.cs:7-12 | Fails (`None`) exactly when fewer than 8 bytes are given. |
| ArmHelper.DecodeMovValue | Il2CppDumper/Utils/ArmHelper.cs:9-11 | The result is `high * 65536 + low`. Each half is the immediate `imm4:i:imm3:imm8` of its instruction, so the `ushort` casts never truncate and the `int` arithmetic never wraps. |
| ArmHelper.MovHalf | Il2CppDumper/Utils/ArmHelper.cs:9-10 | The C# expression for one half, truncated to `ushort`. `MovHalfFields` proves it equals `Imm16`. |
| ArmHelper.Imm16 | Il2CppDumper/Utils/ArmHelper.cs:9-10 | The architectural T3 immediate `imm4:i:imm3:imm8`. `PlaceImm16RoundTrip` proves placing a value into its fields reads back. |
| ArmHelper.MovHalfFields | Il2CppDumper/Utils/ArmHelper.cs:9-10 | The C# shift-and-mask expression for one half equals the T3 immediate `imm4:i:imm3:imm8`. |
| ArmHelper.WrapFree | Il2CppDumper/Utils/ArmHelper.cs:11 | `(uint)((high << 16) + low)`, done in 32-bit `int`, equals the exact value `high * 65536 + low`. |
| ArmHelper.MovRoundTrip | Il2CppDumper/Utils/ArmHelper.cs:7-12 | Placing any 32-bit value into the MOVW/MOVT immediate fields of any 8 bytes decodes back to that value. |
| ArmHelper.PlaceImm16RoundTrip | Il2CppDumper/Utils/ArmHelper.cs:9-10 | Placing a 16-bit value into one instruction's fields decodes back to it. All bits outside the fields are kept. |
| ArmHelper.MovIgnoresOtherBits | Il2CppDumper/Utils/ArmHelper.cs:9-10 | Two inputs that agree on the immediate fields decode alike, whatever their other bits. |
| ArmHelper.DecodeMovExample | Il2CppDumper/Utils/ArmHelper.cs:7-12 | A concrete MOVW/MOVT pair decodes to 0x12345678. |
| ArmHelper.BinaryString | Il2CppDumper/Utils/ArmHelper.cs:16-25 | The `foreach` loop builds the binary string of the bytes: 8 zero-padded digits per byte, in order. |
| ArmHelper.BinaryOfOctet | Il2CppDumper/Utils/ArmHelper.cs:19-24 | Digits `8k..8k+8` of the string are the padded binary form of byte `k`. |
| ArmHelper.Octet | Il2CppDumper/Utils/ArmHelper.cs:19-23 | One byte's padded string has 8 binary digits and denotes that byte. |
| ArmHelper.DecodeAdr | Il2CppDumper/Utils/ArmHelper.cs:14-28 | Fails when fewer than 4 bytes are given. Otherwise the result is the ADR target of the little-endian word. |
| ArmHelper.AdrTarget | Il2CppDumper/Utils/ArmHelper.cs:26-27 | The architectural ADR target, `pc + SignExtend(immhi:immlo)` modulo 2^64. `DecodeAdr` is proved equal to it, and `AdrOffsetRange` bounds its offset. |
| ArmHelper.AdrDigitsValue | Il2CppDumper/Utils/ArmHelper.cs:26 | The 64-digit string (44 copies of bit 23, then the other 20 immediate bits) denotes `SignExtend(immhi:immlo)` modulo 2^64. |
| ArmHelper.AdrFields | Il2CppDumper/Utils/ArmHelper.cs:26 | `immhi` (word bits 23..5) and `immlo` (bits 30..29), expressed through the four bytes. |
| ArmHelper.SignExtend21 | Il2CppDumper/Utils/ArmHelper.cs:26 | The two's-complement reading of a 21-bit field: its range, its sign bit and its congruence. |
| ArmHelper.AdrResult | Il2CppDumper/Utils/ArmHelper.cs:27 | `pc + value` with `ulong` wrap-around equals `pc + SignExtend(imm)` modulo 2^64. |
| ArmHelper.AdrOffsetRange | Il2CppDumper/Utils/ArmHelper.cs:26-27 | The signed offset of the target from `pc` lies in [-2^20, 2^20). |
| ArmHelper.DecodeAdrp | Il2CppDumper/Utils/ArmHelper.cs:30-45 | Fails when fewer than 4 bytes are given. Otherwise the result is the ADRP target: the 4 KiB page of `pc` plus the signed immediate times 4096, modulo 2^64. |
| ArmHelper.AdrpTarget | Il2CppDumper/Utils/ArmHelper.cs:32-44 | The architectural ADRP target: the 4 KiB page of `pc` plus `SignExtend(imm) * 4096`, modulo 2^64. `DecodeAdrp` is proved equal to it. `AdrpAligned` and `AdrpIgnoresPageOffset` are about it. |
| ArmHelper.PageMask | Il2CppDumper/Utils/ArmHelper.cs:32 | `pc & 0xFFFFFFFFFFFFF000` clears the low 12 bits. |
| ArmHelper.AdrpDigitsValue | Il2CppDumper/Utils/ArmHelper.cs:43 | The 64-digit string (32 copies of bit 23, 20 immediate bits, 12 zeros) denotes `SignExtend(imm) * 4096` modulo 2^64. |
| ArmHelper.PageScaled | Il2CppDumper/Utils/ArmHelper.cs:43 | A sign-filled, shifted digit string is the scaled signed immediate modulo 2^64. |
| ArmHelper.AdrpResult | Il2CppDumper/Utils/ArmHelper.cs:44 | The masked `pc` plus that value, with wrap-around, is the ADRP target. |
| ArmHelper.AdrpAligned | Il2CppDumper/Utils/ArmHelper.cs:32-44 | Every ADRP target is 4 KiB aligned. |
| ArmHelper.AdrpIgnoresPageOffset | Il2CppDumper/Utils/ArmHelper.cs:32 | The target does not depend on the low 12 bits of `pc`. |
| ArmHelper.AdrpZeroImmediate | Il2CppDumper/Utils/ArmHelper.cs:30-45 | With a zero immediate and `pc = 0x1000` the target is `0x1000`. |
| ArmHelper.DecodeAdd | Il2CppDumper/Utils/ArmHelper.cs:47-63 | Fails on fewer than 3 bytes. With exactly 3 bytes it decodes the word with a zero top byte; otherwise it decodes the first four bytes. |
| ArmHelper.AddDigitsValue | Il2CppDumper/Utils/ArmHelper.cs:59-60 | The 12 sliced digits denote `imm12` (word bits 21..10), and digit 17 is the `sh` bit (bit 22). |
| ArmHelper.AddImmediate | Il2CppDumper/Utils/ArmHelper.cs:59-62 | Without `sh`, the result is `imm12 < 4096`. With `sh`, it is `imm12 * 4096`: a multiple of 4096 below 2^24. |
| ArmHelper.AddFields | Il2CppDumper/Utils/ArmHelper.cs:59-60 | `imm12` and `sh`, expressed through the bytes. |
| ArmHelper.AddIgnoresTopByte | Il2CppDumper/Utils/ArmHelper.cs:59-60 | The fourth byte never affects the ADD offset. |
| Keywords.ParseRender | Il2CppDumper/Output/ScriptGenerator.cs:533-574 | The keyword text the generator appends reads back as exactly the keywords it was made from. |
| Keywords.RenderConcat | Il2CppDumper/Output/ScriptGenerator.cs:537-574 | Appending keyword runs one after another gives the text of the whole run. |
| Modifiers.Access | Il2CppDumper/Output/ScriptGenerator.cs:533 | `flags & 7` is the flags modulo 8. |
| Modifiers.FlagBit | Il2CppDumper/Output/ScriptGenerator.cs:553 | Testing a one-bit mask tests exactly that binary digit. |
| Modifiers.AccessKeywordsCases | Il2CppDumper/Output/ScriptGenerator.cs:533-552 | Access values 0 and 7 give no keyword. Each other value gives exactly its keywords: private (1), internal (2, 3), protected (4), protected internal (5), public (6). |
| Modifiers.AccessKeywords | Il2CppDumper/Output/ScriptGenerator.cs:533-552 | The access `switch` shared by methods and fields. `AccessKeywordsCases` gives each value's keywords. |
| Modifiers.SlotCases | Il2CppDumper/Output/ScriptGenerator.cs:558 | The vtable layout is REUSE_SLOT exactly when it is not NEW_SLOT, which is bit 8. |
| Modifiers.VirtualityKeywords | Il2CppDumper/Output/ScriptGenerator.cs:555-572 | The abstract / final / virtual cascade. `MethodAbstractKeyword`, `MethodOverrideKeyword`, `MethodSealedKeyword` and `MethodVirtualKeyword` give the condition for each keyword. |
| Modifiers.MethodKeywords | Il2CppDumper/Output/ScriptGenerator.cs:533-574 | The keywords of a method in the order `GetModifiers` appends them: access, `static`, virtuality, `extern`. The per-keyword lemmas say when each appears. |
| Modifiers.MethodModifiers | Il2CppDumper/Output/ScriptGenerator.cs:529-577 | The text of those keywords. `MethodModifiersParse` proves it reads back as them and is empty exactly when there are none. |
| Modifiers.MethodModifiersParse | Il2CppDumper/Output/ScriptGenerator.cs:529-577 | A method's modifier text is the access, `static`, virtuality and `extern` keywords in that order. It is empty (C# `null`) exactly when none applies. |
| Modifiers.MethodStaticKeyword | Il2CppDumper/Output/ScriptGenerator.cs:553-554 | `static` appears if and only if STATIC is set. |
| Modifiers.MethodExternKeyword | Il2CppDumper/Output/ScriptGenerator.cs:573-574 | `extern` appears if and only if PINVOKE_IMPL is set. |
| Modifiers.MethodAbstractKeyword | Il2CppDumper/Output/ScriptGenerator.cs:555-557 | `abstract` appears if and only if ABSTRACT is set. |
| Modifiers.MethodOverrideKeyword | Il2CppDumper/Output/ScriptGenerator.cs:555-572 | `override` appears exactly for a REUSE_SLOT method that is abstract, final or virtual. |
| Modifiers.MethodSealedKeyword | Il2CppDumper/Output/ScriptGenerator.cs:561-565 | `sealed` appears exactly for a final, non-abstract method that reuses its slot. |
| Modifiers.MethodVirtualKeyword | Il2CppDumper/Output/ScriptGenerator.cs:566-572 | `virtual` appears exactly for a NEW_SLOT virtual method that is neither abstract nor final. |
| Modifiers.MethodModifierCache.constructor | Il2CppDumper/Output/ScriptGenerator.cs:18 | The memo table starts empty and consistent. |
| Modifiers.MethodModifierCache.GetModifiers | Il2CppDumper/Output/ScriptGenerator.cs:529-577 | Returns the method's modifier text. A hit leaves the table unchanged; a miss adds exactly that one entry. No entry is ever overwritten, and every stored string is the text of its method. |
| Modifiers.BuildModifiers | Il2CppDumper/Output/ScriptGenerator.cs:533-576 | The step-by-step appends build the method's modifier text. |
| Modifiers.AccessModifiers | Il2CppDumper/Output/ScriptGenerator.cs:533-552 | The access switch appends the text of the access keywords. |
| Modifiers.VirtualityModifiers | Il2CppDumper/Output/ScriptGenerator.cs:555-572 | The abstract / final / virtual cascade appends the text of the virtuality keywords. |
| Modifiers.MethodTextPieces | Il2CppDumper/Output/ScriptGenerator.cs:533-574 | The four appended pieces together are the method's modifier text. |
| Modifiers.Extends | Il2CppDumper/Output/ScriptGenerator.cs:53-70 | The base list is the interfaces, preceded by the parent exactly when there is one and it is not `ValueType`, `Enum` or `object`. |
| Modifiers.TypeHeader | Il2CppDumper/Output/ScriptGenerator.cs:74-115 | The header line is, in order: `[Serializable]` when attributes are dumped and the flag is set; text that reads back as the visibility, modifier and kind keywords; the name; and a base list exactly when one exists. |
| Modifiers.TypeKeywords | Il2CppDumper/Output/ScriptGenerator.cs:76-111 | The visibility, modifier and kind keywords in front of a type's name. `TypeVisibilityTotal` and the `Type...Keyword` lemmas give when each appears; the kind comes last. |
| Modifiers.TypeVisibilityTotal | Il2CppDumper/Output/ScriptGenerator.cs:76-96 | Every visibility value gives a visibility keyword. |
| Modifiers.TypeStaticKeyword | Il2CppDumper/Output/ScriptGenerator.cs:98-99 | `static` marks exactly the abstract sealed types. |
| Modifiers.TypeAbstractKeyword | Il2CppDumper/Output/ScriptGenerator.cs:98-101 | `abstract` is written exactly for abstract, non-sealed non-interfaces, so never for an interface. |
| Modifiers.TypeSealedKeyword | Il2CppDumper/Output/ScriptGenerator.cs:98-103 | `sealed` is written exactly for sealed, non-abstract types that are neither structs nor enums. |
| Modifiers.TypeKindKeyword | Il2CppDumper/Output/ScriptGenerator.cs:104-111 | Exactly one kind keyword is written, and it comes last. Precedence is interface > struct (`ValueType` parent) > enum (`Enum` parent) > class. |
| Modifiers.FieldKeywordRules | Il2CppDumper/Output/ScriptGenerator.cs:131-158 | LITERAL gives `const`, and then neither `static` nor `readonly`. Otherwise `static` and `readonly` follow their flags. |
| Modifiers.FieldKeywords | Il2CppDumper/Output/ScriptGenerator.cs:131-158 | A field's access keywords, then `const`, or `static` and `readonly`. `FieldKeywordRules` gives when each appears. |
| Modifiers.ParamKeywordRules | Il2CppDumper/Output/ScriptGenerator.cs:280-283 | `optional` and `out` follow their flags, with `optional` first. |
| Modifiers.ParamKeywords | Il2CppDumper/Output/ScriptGenerator.cs:280-283 | `optional` before `out`. `ParamKeywordRules` gives when each appears. |
| Modifiers.ParamText | Il2CppDumper/Output/ScriptGenerator.cs:280-283 | The two appends give the text of those keywords. |
| Modifiers.ParameterStrings | Il2CppDumper/Output/ScriptGenerator.cs:273-286 | The parameter loop yields one text per parameter, in order: its keywords, then its type name and its name. |
| Modifiers.PropertyFirstSetterDropped | Il2CppDumper/Output/ScriptGenerator.cs:239-256 | As written, a write-only property whose setter has index 0 is emitted as just `set; }`. |
| Modifiers.PropertyLineAsWritten | Il2CppDumper/Output/ScriptGenerator.cs:239-256 | The property line as written, taking the declaration from the setter only when `set > 0`. `PropertyFirstSetterDropped` shows the case this drops. |
| Modifiers.PropertyLine | Il2CppDumper/Output/ScriptGenerator.cs:239-256 | The corrected line, using the accessor list's `set >= 0` test. `PropertyLineDeclared` and `PropertyLinesAgree` are about it. |
| Modifiers.PropertyLinesAgree | Il2CppDumper/Output/ScriptGenerator.cs:239-256 | The line as written and the corrected line differ only for a write-only property whose setter has index 0. |
| Modifiers.PropertyLineDeclared | Il2CppDumper/Output/ScriptGenerator.cs:239-256 | Corrected: every property with an accessor is declared with the getter's modifiers and type, or the setter's when there is no getter, before its accessor list. |
| Identifiers.RemoveArity | Il2CppDumper/Output/ScriptGenerator.cs:581 | Removing backtick-digit pairs never makes the text longer. |
| Identifiers.RemoveArityNoMarker | Il2CppDumper/Output/ScriptGenerator.cs:581 | Text with no backtick followed by a digit is unchanged, lone backticks included. |
| Identifiers.RemoveArityShrinks | Il2CppDumper/Output/ScriptGenerator.cs:581 | Text with a backtick followed by a digit always gets shorter. |
| Identifiers.RemoveArityUnchanged | Il2CppDumper/Output/ScriptGenerator.cs:581 | The text is unchanged exactly when it holds no backtick followed by a digit. |
| Identifiers.RemoveArityLoneTick | Il2CppDumper/Output/ScriptGenerator.cs:581 | A backtick followed by a non-digit is kept: "a`b" stays "a`b". |
| Identifiers.RemoveArityConcat | Il2CppDumper/Output/ScriptGenerator.cs:581 | Removal works piece by piece, as long as the first piece does not end in a backtick. |
| Identifiers.RemoveArityOnce | Il2CppDumper/Output/ScriptGenerator.cs:581 | Matches do not overlap and are not searched again: "``11" becomes "`1". |
| Identifiers.ReplaceChar | Il2CppDumper/Output/ScriptGenerator.cs:582-585 | `Replace` maps each character on its own and keeps the length. |
| Identifiers.HandleSpecialCharacters | Il2CppDumper/Output/ScriptGenerator.cs:579-587 | Arity removal followed by the four `Replace` calls, in the source's order. Its properties are the next three lemmas. |
| Identifiers.HandleSpecialCharactersPointwise | Il2CppDumper/Output/ScriptGenerator.cs:579-587 | After arity removal, `<`, `>`, `,` and `-` become `_`. Every other character is kept in place. |
| Identifiers.HandleSpecialCharactersClean | Il2CppDumper/Output/ScriptGenerator.cs:579-587 | The result contains no `<`, `>`, `,` or `-`, and is never longer than the input. |
| Identifiers.HandleSpecialCharactersExample | Il2CppDumper/Output/ScriptGenerator.cs:579-587 | "List`1<T>" becomes "List_T_". |
| Identifiers.RemoveArityMarker | Il2CppDumper/Output/ScriptGenerator.cs:581 | A backtick and one digit between two texts without backticks are removed, and nothing else is. |
| Identifiers.RemoveArityExample | Il2CppDumper/Output/ScriptGenerator.cs:581 | "List`1<T>" loses its arity marker. |
| Identifiers.ReplaceSpecialExample | Il2CppDumper/Output/ScriptGenerator.cs:582-585 | "List<T>" becomes "List_T_". |
| Identifiers.EscapeChar | Il2CppDumper/Output/ScriptGenerator.cs:594-635 | Characters outside the twelve-character set are copied. `'`, `"` and `\` become backslash pairs, and every escape starts with a backslash. |
| Identifiers.EscapeCharClean | Il2CppDumper/Output/ScriptGenerator.cs:594-635 | No escape contains a raw control or separator character. |
| Identifiers.Escape | Il2CppDumper/Output/ScriptGenerator.cs:589-638 | The escaped text, one character's escape after another. `ToEscapedString` is proved to compute it; `EscapeConcat`, `EscapeClean` and `UnescapeEscape` are about it. |
| Identifiers.ToEscapedString | Il2CppDumper/Output/ScriptGenerator.cs:589-638 | The `StringBuilder` loop computes the character-by-character escape of the input. |
| Identifiers.EscapeConcat | Il2CppDumper/Output/ScriptGenerator.cs:592-636 | Escaping distributes over concatenation. |
| Identifiers.EscapeClean | Il2CppDumper/Output/ScriptGenerator.cs:589-638 | The escaped text contains no raw `\t \n \r \f \b \0`, U+0085, U+2028 or U+2029, and is no shorter than the input. |
| Identifiers.UnescapeChar | Il2CppDumper/Output/ScriptGenerator.cs:594-635 | Each escape reads back as its character. |
| Identifiers.Unescape | Il2CppDumper/Output/ScriptGenerator.cs:589-638 | Reads an escaped literal back. It is the partner of `Escape`: `UnescapeEscape` proves the round trip. |
| Identifiers.UnescapeEscape | Il2CppDumper/Output/ScriptGenerator.cs:589-638 | Reading the escaped literal back gives the original string, so escaping is injective. |
| MakeFunction.NonZero | Il2CppDumper/Output/ScriptGenerator.cs:408 | `Where(x => x > 0)` keeps every non-zero pointer as often as it occurs and drops every zero. |
| MakeFunction.NonZeroConcat | Il2CppDumper/Output/ScriptGenerator.cs:408 | The filter distributes over concatenation, so the kept pointers stay in their order. |
| MakeFunction.NonZeroSingle | Il2CppDumper/Output/ScriptGenerator.cs:408 | One pointer is kept exactly when it is not zero. |
| MakeFunction.FlattenMember | Il2CppDumper/Output/ScriptGenerator.cs:401-403 | A pointer is in the concatenated module tables exactly when some module holds it. |
| MakeFunction.Collected | Il2CppDumper/Output/ScriptGenerator.cs:398-410 | The unsorted list, in `AddRange` order. `CollectedMember` gives its members, and `CollectPointers` proves the step-by-step build equals it. |
| MakeFunction.CollectedMember | Il2CppDumper/Output/ScriptGenerator.cs:398-410 | The list holds a pointer exactly when it is among: the module pointers (version >= 24.2) or the global method pointers; the non-zero generic method pointers; the invokers; the generators. |
| MakeFunction.CollectPointers | Il2CppDumper/Output/ScriptGenerator.cs:398-410 | The `AddRange` sequence builds that list, in that order. |
| MakeFunction.Insert | Il2CppDumper/Output/ScriptGenerator.cs:411 | Insertion adds exactly one occurrence of the element. |
| MakeFunction.InsertSorted | Il2CppDumper/Output/ScriptGenerator.cs:411 | Insertion keeps a sorted list sorted. |
| MakeFunction.SortedCons | Il2CppDumper/Output/ScriptGenerator.cs:411 | A least element in front of a sorted list gives a sorted list. |
| MakeFunction.Sort | Il2CppDumper/Output/ScriptGenerator.cs:411 | `OrderBy(x => x)`, keeping the length. `SortFacts` proves it sorted and a permutation, and `SortedUnique` proves any sort gives the same list. |
| MakeFunction.SortFacts | Il2CppDumper/Output/ScriptGenerator.cs:411 | `OrderBy(x => x)` gives a non-decreasing permutation of the list. |
| MakeFunction.SortedUnique | Il2CppDumper/Output/ScriptGenerator.cs:411 | The sorted permutation is unique, so any sort gives the same list. |
| MakeFunction.Ranges | Il2CppDumper/Output/ScriptGenerator.cs:413-415 | The loop emits `count - 1` pairs `(p[i], p[i+1])`, none for `count <= 1`. Each pair runs upwards when the list is sorted, and consecutive pairs share their boundary. |
| MakeFunction.FunctionRanges | Il2CppDumper/Output/ScriptGenerator.cs:397-418 | The whole section: `count - 1` pairs of neighbours in the sorted list. Each pair runs upwards between two collected pointers. |
| UnityVersion.Dotted | Il2CppDumper/Program.cs:183 | `Regex.Replace(s, @"\D", ".")` keeps the digits and turns every other character into a dot. |
| UnityVersion.Split | Il2CppDumper/Program.cs:183 | `Split(".")`, always at least one piece. `SplitStep` says it cuts at the first dot. |
| UnityVersion.Pieces | Il2CppDumper/Program.cs:183 | Replace, split and drop empty pieces, in that order. `PiecesDigits`, `PiecesCons` and `PiecesJoin` are about it. |
| UnityVersion.PiecesDigits | Il2CppDumper/Program.cs:183 | Every piece after `Split` with `RemoveEmptyEntries` is a non-empty run of digits. |
| UnityVersion.PiecesCons | Il2CppDumper/Program.cs:183 | A number followed by a dot is the first piece. |
| UnityVersion.PiecesJoin | Il2CppDumper/Program.cs:183 | Numbers joined with dots split back into exactly those numbers. |
| UnityVersion.DottedConcat | Il2CppDumper/Program.cs:183 | The replacement works piece by piece. |
| UnityVersion.SplitStep | Il2CppDumper/Program.cs:183 | `Split` cuts at the first dot. |
| UnityVersion.RemoveEmpty | Il2CppDumper/Program.cs:183 | `RemoveEmptyEntries` keeps every non-empty piece as often as it occurs and drops every empty one. |
| UnityVersion.RemoveEmptyConcat | Il2CppDumper/Program.cs:183 | Dropping empty pieces distributes over concatenation, so the kept pieces stay in their order. |
| UnityVersion.RemoveEmptySingle | Il2CppDumper/Program.cs:183 | One piece is kept exactly when it is not empty. |
| UnityVersion.ParseInt | Il2CppDumper/Program.cs:183 | `int.Parse` succeeds exactly on a non-empty digit string whose value is at most `int.MaxValue`. |
| UnityVersion.DecimalToDecimal | Il2CppDumper/Program.cs:183 | The decimal digits of a number read back as that number. |
| UnityVersion.ParseIntToDecimal | Il2CppDumper/Program.cs:183 | Every `int` in range parses from its digits. |
| UnityVersion.ParseAll | Il2CppDumper/Program.cs:183 | `Array.ConvertAll` succeeds exactly when every piece parses, and keeps their values in order. |
| UnityVersion.ParseUnityVersion | Il2CppDumper/Program.cs:182-184 | Fails exactly when a piece does not parse or there are fewer than two pieces (the index exception). Otherwise the version is `(int.Parse(piece 0), int.Parse(piece 1))`, both within `int`. |
| UnityVersion.ParseUnityVersionOfPieces | Il2CppDumper/Program.cs:183-184 | Whenever every piece parses and there are at least two, the version is the first two values. |
| UnityVersion.ParseUnityVersionJoin | Il2CppDumper/Program.cs:183-184 | Typing two or more numbers with dots gives back the first two as `(major, minor)`. |
| UnityVersion.RevisionFor | Il2CppDumper/Program.cs:185-191 | Version 2019.1 or later gives 24.2. From 2018.3 up to that it gives 24.1. Earlier versions give 24. |
| UnityVersion.RevisionMonotone | Il2CppDumper/Program.cs:185-191 | A later Unity version never gives an earlier metadata revision. |
| Program.ReadU32 | Il2CppDumper/Program.cs:49 | `BitConverter.ToUInt32` succeeds exactly when four bytes are available at the offset. |
| Program.ReadU32Bytes | Il2CppDumper/Program.cs:49 | The word read is the four bytes, least significant first. |
| Program.ReadI32 | Il2CppDumper/Program.cs:177 | `BitConverter.ToInt32` succeeds exactly when four bytes are available. Its value lies within `int` and is the two's-complement reading of the unsigned word at the offset. |
| Program.RolesInputs | Il2CppDumper/Program.cs:45-59 | With two arguments, the first file that starts with 0xFAB11BAF is the metadata, file 1 first, and the other file is the binary. Otherwise no roles are assigned. |
| Program.Roles | Il2CppDumper/Program.cs:30-64 | The help flags, the argument count and the magic test that assign the two files. `RolesInputs` and `RolesArgumentCount` are about it. |
| Program.RolesArgumentCount | Il2CppDumper/Program.cs:30-43 | With an argument count other than 2, nothing is read. One help flag, or more than two arguments, shows the help; anything else gives "Please pass an Il2CPP binary." |
| Program.FixedMetadataVersion | Il2CppDumper/Program.cs:175-195 | The only failures are a short file and an unreadable Unity version. |
| Program.FixedVersionKept | Il2CppDumper/Program.cs:177-178 | A stored version other than 24 is returned unchanged, whatever is typed. |
| Program.FixedVersionOf24 | Il2CppDumper/Program.cs:180-194 | Version 24 becomes 24, 24.1 or 24.2 as the typed Unity version says. It fails exactly when that version cannot be read. |
| Program.CsRem | Il2CppDumper/Program.cs:160 | C# `%` keeps the sign of the dividend. |
| Program.FatChoice | Il2CppDumper/Program.cs:158-165 | A chosen fat platform is one of the first two entries. |
| Program.FatChoiceSlots | Il2CppDumper/Program.cs:158-165 | Key `0` (index -1) has no entry. Odd keys select entry 0, and even keys entry 1 when it exists. The entry's magic selects the 64-bit or the 32-bit reader. |
| Program.MachoKindIff | Il2CppDumper/Program.cs:162-169 | The 64-bit Mach-O reader is used exactly for 0xFEEDFACF. |
| Program.MachoKind | Il2CppDumper/Program.cs:162-169 | The `goto case` from a fat entry's magic. `MachoKindIff` states it. |
| Program.GetIl2Cpp | Il2CppDumper/Program.cs:135-173 | A sub-image is read exactly for the two fat magics. |
| Program.DispatchKinds | Il2CppDumper/Program.cs:137-171 | Each magic selects its reader: NSO, PE, ELF64 when byte 4 is 2 (otherwise ELF32), and Mach-O 64 or 32. Every unknown magic is refused. |
| Program.CountWithCode | Il2CppDumper/Program.cs:115 | The count of methods with code never exceeds the number of methods. |
| Program.CountWithCodeConcat | Il2CppDumper/Program.cs:115 | The count adds up over concatenated tables. |
| Program.CountWithCodeAll | Il2CppDumper/Program.cs:115 | The count equals the number of methods exactly when every method has code. |
| Program.SelectModeKeys | Il2CppDumper/Program.cs:100-123 | Keys 1 to 4 select manual entry, search, plus-search with the method and type counts, and symbol search. Any other key makes `Init` return false. Unreadable manual addresses are an error. |
| Program.SelectMode | Il2CppDumper/Program.cs:100-123 | The `switch` on the mode key. `SelectModeKeys` gives each key's outcome. |
| Program.InitChecksMagicFirst | Il2CppDumper/Program.cs:75-79 | Readable metadata without the 0xFAB11BAF magic is refused before anything else is looked at. |
| Program.Init | Il2CppDumper/Program.cs:73-133 | The steps of `Init` in order: magic check, version fix-up, reader dispatch, mode. `InitChecksMagicFirst`, `InitSession` and `InitSearchFails` are about it. |
| Program.InitSession | Il2CppDumper/Program.cs:73-133 | A session needs all of these: valid metadata, a known binary magic, a mode key 1 to 4 and a mode that succeeds. Its version is the forced one if configured, and the fixed metadata version otherwise. |
| Program.InitSearchFails | Il2CppDumper/Program.cs:98-131 | For every mode key 1 to 4, a mode that fails (`il2cpp.Init` throwing, or a search returning false) is an error, never a silent `false`. |

## Left out

- File and script output is not modelled: `dump.cs`, `script.py` and the writers. The model returns keywords, strings and `(start, end)` pairs instead of writing text; the hex formatting of the `MakeFunction(...)` line is not modelled.
- The metadata and binary readers are not part of this model: `Metadata`, `Il2Cpp`, `Elf`, `PE`, `Macho`, `NSO`, `MachoFat`. The same goes for `GetTypeName`, `GetCustomAttribute`, `GetMethodPointer` and `MapVATR`. Type names, parent names, fat entry magics, method indices and search outcomes are parameters.
- Dispatch returns only the kind of reader, plus the fat sub-image index; the replaced bytes are not modelled.
- Console input, `File.ReadAllBytes`, the JSON configuration and `Console.ReadKey` are not modelled. The typed Unity version, the keys and the forced version are parameters. The two typed hex addresses are given already parsed (`None` when `Convert.ToUInt64` throws); hexadecimal parsing is not modelled.
- `CreateDummyDll` is not modelled: it uses the file system and an external assembly writer.
- Field default values are not modelled. They are read from a metadata stream and include floating-point decoding.
- The per-type error annotation (exception recovery) is not modelled.
- `\d` is read as the ASCII digits; Unicode digits are not modelled.
- `int.Parse` is modelled on the pieces only, which hold just digits, so signs and whitespace never arise.
- `System.Version` comparison is taken on `(major, minor)`. The reference versions `Unity20191` and `Unity20183` live in `DefineConstants`, which is not part of this model; they are taken as 2019.1 and 2018.3.
- The `DefineConstants` flag values are taken from ECMA-335 Partition II, sections II.23.1.5, II.23.1.10, II.23.1.13 and II.23.1.15.
- `metadata.version` is taken to be the fixed version `Metadata` is constructed with.
- `BitConverter` is taken to run on a little-endian machine.
- The outcome of the chosen mode is a parameter of `Init` (`modeOk`): the searches and `il2cpp.Init` belong to `Il2Cpp`, which is not part of this model.
- Modifiers.MethodModifierCache.GetModifiers: the dictionary key is a value `MethodDef(index, flags)`, not an object reference. C# `null` is the empty string.
- Modifiers.BuildModifiers: the access switch and the virtuality cascade are separate methods (`AccessModifiers`, `VirtualityModifiers`) that return the text appended; the order of appends is the same.
- Modifiers.TypeHeader: the `// Namespace:` comment line, the custom attributes and the `TypeDefIndex` comment are not modelled, because they need metadata strings and attribute readers that are not part of this model. The base list after the name is stated only as present or absent, not character by character.
- `string.Join` is modelled (`Keywords.Join`) but its contents are not specified beyond concatenation.
- MakeFunction.Sort: `OrderBy` is modelled as insertion sort. `SortedUnique` shows that every sort algorithm gives the same list, so stability does not matter for integers.
- The `MakeFunction` guard `il2cpp.version >= 24.2f` compares versions in tenths; single-precision rounding of the version is not modelled.

## Findings

| source | as written | input that shows it | evidently intended | confidence | as-written member | corrected member |
|---|---|---|---|---|---|---|
| Il2CppDumper/Output/ScriptGenerator.cs:244 | The declaration of a property without a getter is written only when `propertyDef.set > 0`, while the accessor list uses `set >= 0`. | A write-only property whose setter is the first method of its type (`get == -1`, `set == 0`) is emitted as `set; }`, with no modifiers, type or name. | `set >= 0`, as for the getter and the accessor list: the setter's declaration is written. | not executed; medium | Modifiers.PropertyFirstSetterDropped | Modifiers.PropertyLineDeclared |
