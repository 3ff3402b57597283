/** How the dumper classifies its inputs before any parsing: which of the two
    files is the metadata, whether the metadata starts with its magic number,
    which metadata version to use, which kind of executable the other file is,
    and which registration search the user picked.

    The readers and searches themselves (`Metadata`, `Il2Cpp` and its
    subclasses, `MachoFat`) are not part of this model: their results are
    parameters, and dispatch returns only the kind of reader chosen. A C#
    exception is an `Err` naming it. */
module Program {
  import opened Bits
  import opened Wrappers
  import opened UnityVersion

  const METADATA_MAGIC: u32 := 0xFAB1_1BAF

  const NSO_MAGIC: u32 := 0x304F_534E
  const PE_MAGIC: u32 := 0x0090_5A4D
  const ELF_MAGIC: u32 := 0x464C_457F
  const FAT_MAGIC: u32 := 0xCAFE_BABE
  const FAT_CIGAM: u32 := 0xBEBA_FECA
  const MACHO64_MAGIC: u32 := 0xFEED_FACF
  const MACHO32_MAGIC: u32 := 0xFEED_FACE

  /** The exceptions this code raises or lets through. */
  datatype Error =
    | TooShort            // BitConverter on fewer than 4 bytes, or an index past the end
    | InvalidMetadata     // "Metadata file supplied is not valid metadata file."
    | BadUnityVersion     // "You must enter the correct Unity version number"
    | NotSupported        // "il2cpp file not supported."
    | BadPlatformKey      // int.Parse on a key that is not a digit
    | NoSuchPlatform      // the chosen fat sub-image does not exist
    | ModeFailed          // "Can't use this mode to process file, try another mode."

  // ---------------------------------------------------------------------------
  // BitConverter

  /** `BitConverter.ToUInt32(bytes, off)` on a little-endian machine. */
  function ReadU32(bytes: seq<byte>, off: nat): (r: Option<u32>)
    ensures r.Some? <==> off + 4 <= |bytes|
  {
    if off + 4 <= |bytes| then Some(Word(bytes[off], bytes[off + 1], bytes[off + 2], bytes[off + 3]))
    else None
  }

  /** `BitConverter.ToInt32(bytes, off)`. */
  function ReadI32(bytes: seq<byte>, off: nat): (r: Option<int>)
    ensures r.Some? <==> off + 4 <= |bytes|
    ensures r.Some? ==> -0x8000_0000 <= r.value < 0x8000_0000
    ensures r.Some? ==> (r.value - ReadU32(bytes, off).value) % 0x1_0000_0000 == 0
  {
    match ReadU32(bytes, off)
    case None => None
    case Some(u) => Some(Int32(u))
  }

  /** The word read is the four bytes at `off`, least significant first. */
  lemma ReadU32Bytes(bytes: seq<byte>, off: nat)
    requires off + 4 <= |bytes|
    ensures var w := ReadU32(bytes, off).value;
      && w % 0x100 == bytes[off]
      && (w / 0x100) % 0x100 == bytes[off + 1]
      && (w / 0x1_0000) % 0x100 == bytes[off + 2]
      && w / 0x100_0000 == bytes[off + 3]
  {
    var b0, b1, b2, b3 := bytes[off], bytes[off + 1], bytes[off + 2], bytes[off + 3];
    var w := Word(b0, b1, b2, b3);
    var q1 := b1 as int + 0x100 * (b2 as int) + 0x1_0000 * (b3 as int);
    DivModUnique(w, 0x100, q1, b0);
    var q2 := b2 as int + 0x100 * (b3 as int);
    DivModUnique(q1, 0x100, q2, b1);
    DivDiv(w, 0x100, 0x100);
    DivModUnique(q2, 0x100, b3, b2);
    DivDiv(w, 0x1_0000, 0x100);
  }

  // ---------------------------------------------------------------------------
  // Main: which file is which

  /** What `Main` does with its command line. */
  datatype Start =
    | ShowHelp
    | NoBinary                                     // "Please pass an Il2CPP binary."
    | Inputs(il2cpp: seq<byte>, metadata: seq<byte>)

  predicate IsHelpFlag(a: string) {
    a == "-h" || a == "--help" || a == "/?" || a == "/h"
  }

  /** `file1` and `file2` are the contents of the two named files; they are
      used only when exactly two arguments are given. */
  function Roles(args: seq<string>, file1: seq<byte>, file2: seq<byte>): Result<Start, Error> {
    if |args| == 1 && IsHelpFlag(args[0]) then Ok(ShowHelp)
    else if |args| > 2 then Ok(ShowHelp)
    else if |args| < 2 then Ok(NoBinary)
    else
      match ReadU32(file1, 0)
      case None => Err(TooShort)
      case Some(m1) =>
        if m1 == METADATA_MAGIC then Ok(Inputs(file2, file1))
        else
          match ReadU32(file2, 0)
          case None => Err(TooShort)
          case Some(m2) =>
            if m2 == METADATA_MAGIC then Ok(Inputs(file1, file2)) else Ok(NoBinary)
  }

  /** The metadata is the file that starts with the metadata magic, the first
      file winning when both do; the binary is the other one. */
  lemma RolesInputs(args: seq<string>, file1: seq<byte>, file2: seq<byte>)
    ensures Roles(args, file1, file2).Ok? && Roles(args, file1, file2).value.Inputs? <==>
      |args| == 2 &&
      (ReadU32(file1, 0) == Some(METADATA_MAGIC) ||
       (ReadU32(file1, 0).Some? && ReadU32(file2, 0) == Some(METADATA_MAGIC)))
    ensures ReadU32(file1, 0) == Some(METADATA_MAGIC) && |args| == 2 ==>
      Roles(args, file1, file2) == Ok(Inputs(file2, file1))
    ensures match Roles(args, file1, file2)
      case Ok(Inputs(b, m)) =>
        ReadU32(m, 0) == Some(METADATA_MAGIC) && ((b, m) == (file1, file2) || (b, m) == (file2, file1))
      case _ => true
  {
  }

  /** Nothing is read unless there are exactly two arguments. */
  lemma RolesArgumentCount(args: seq<string>, file1: seq<byte>, file2: seq<byte>)
    requires |args| != 2
    ensures Roles(args, file1, file2) == Ok(if |args| > 2 || (|args| == 1 && IsHelpFlag(args[0])) then ShowHelp else NoBinary)
  {
  }

  // ---------------------------------------------------------------------------
  // GetFixedMetadataVersion

  /** The metadata version in tenths: the stored version, except that the
      ambiguous version 24 is refined from the Unity version the user types. */
  function FixedMetadataVersion(metadata: seq<byte>, unityInput: string): (r: Result<int, Error>)
    ensures r.Err? ==> r.error == TooShort || r.error == BadUnityVersion
  {
    match ReadI32(metadata, 4)
    case None => Err(TooShort)
    case Some(v) =>
      if v != 24 then Ok(10 * v)
      else
        match ParseUnityVersion(unityInput)
        case None => Err(BadUnityVersion)
        case Some(u) => Ok(RevisionFor(u))
  }

  /** Any stored version but 24 is kept, and the Unity version is not read. */
  lemma FixedVersionKept(metadata: seq<byte>, unityInput: string, unityInput': string)
    requires ReadI32(metadata, 4).Some? && ReadI32(metadata, 4).value != 24
    ensures FixedMetadataVersion(metadata, unityInput) == Ok(10 * ReadI32(metadata, 4).value)
    ensures FixedMetadataVersion(metadata, unityInput) == FixedMetadataVersion(metadata, unityInput')
  {
  }

  /** Version 24 becomes 24, 24.1 or 24.2, never anything else. */
  lemma FixedVersionOf24(metadata: seq<byte>, unityInput: string)
    requires ReadI32(metadata, 4) == Some(24)
    ensures var r := FixedMetadataVersion(metadata, unityInput);
      && (r.Ok? <==> ParseUnityVersion(unityInput).Some?)
      && (r.Ok? ==> r.value in {240, 241, 242})
      && (r.Ok? ==> r.value == RevisionFor(ParseUnityVersion(unityInput).value))
  {
  }

  // ---------------------------------------------------------------------------
  // GetIl2Cpp: the kind of executable

  datatype Kind = Nso | Pe | Elf32 | Elf64 | Macho32 | Macho64

  /** The reader chosen, and for a fat Mach-O the sub-image it reads. */
  datatype Image = Image(kind: Kind, subImage: Option<nat>)

  /** C# `%` on `int`: the remainder has the sign of the dividend. */
  function CsRem(a: int, b: int): (r: int)
    requires b > 0
    ensures a >= 0 ==> 0 <= r < b && r == a % b
    ensures a < 0 ==> -b < r <= 0 && (r - a) % b == 0
  {
    if a >= 0 then a % b
    else
      var m := -a;
      var q, r := m / b, m % b;
      DivModUnique(b * q, b, q, 0);
      -r
  }

  /** The Mach-O reader for a (sub-)image magic. */
  function MachoKind(magic: u32): Kind {
    if magic == MACHO64_MAGIC then Macho64 else Macho32
  }

  /** The platform the user picks from a fat Mach-O: key `k` means entry `k - 1`,
      folded onto the first two entries. `fats` holds the magic of each entry. */
  function FatChoice(fats: seq<u32>, key: char): (r: Result<Image, Error>)
    ensures r.Ok? ==> r.value.subImage.Some? && r.value.subImage.value < 2
  {
    if !Identifiers.IsDigit(key) then Err(BadPlatformKey)
    else
      var index := (key as int - '0' as int) - 1;
      var slot := CsRem(index, 2);
      if slot < 0 || slot >= |fats| then Err(NoSuchPlatform)
      else Ok(Image(MachoKind(fats[slot]), Some(slot)))
  }

  /** The `switch` on the first word of the binary. `fats` are the entries a
      fat Mach-O reader finds, and `key` is the key pressed to choose one. */
  function GetIl2Cpp(bytes: seq<byte>, magic: u32, fats: seq<u32>, key: char): (r: Result<Image, Error>)
    ensures r.Ok? ==> (r.value.subImage.Some? <==> magic == FAT_MAGIC || magic == FAT_CIGAM)
  {
    if magic == NSO_MAGIC then Ok(Image(Nso, None))
    else if magic == PE_MAGIC then Ok(Image(Pe, None))
    else if magic == ELF_MAGIC then
      if |bytes| <= 4 then Err(TooShort)
      else if bytes[4] == 2 then Ok(Image(Elf64, None))
      else Ok(Image(Elf32, None))
    else if magic == FAT_MAGIC || magic == FAT_CIGAM then FatChoice(fats, key)
    else if magic == MACHO64_MAGIC then Ok(Image(Macho64, None))
    else if magic == MACHO32_MAGIC then Ok(Image(Macho32, None))
    else Err(NotSupported)
  }

  predicate KnownMagic(magic: u32) {
    magic == NSO_MAGIC || magic == PE_MAGIC || magic == ELF_MAGIC || magic == FAT_MAGIC
    || magic == FAT_CIGAM || magic == MACHO64_MAGIC || magic == MACHO32_MAGIC
  }

  /** Each magic number selects its reader; every other number is refused. */
  lemma DispatchKinds(bytes: seq<byte>, magic: u32, fats: seq<u32>, key: char)
    ensures GetIl2Cpp(bytes, magic, fats, key) == Err(NotSupported) <==> !KnownMagic(magic)
    ensures magic == NSO_MAGIC ==> GetIl2Cpp(bytes, magic, fats, key) == Ok(Image(Nso, None))
    ensures magic == PE_MAGIC ==> GetIl2Cpp(bytes, magic, fats, key) == Ok(Image(Pe, None))
    ensures magic == ELF_MAGIC && |bytes| > 4 ==>
      GetIl2Cpp(bytes, magic, fats, key) == Ok(Image(if bytes[4] == 2 then Elf64 else Elf32, None))
    ensures magic == MACHO64_MAGIC ==> GetIl2Cpp(bytes, magic, fats, key) == Ok(Image(Macho64, None))
    ensures magic == MACHO32_MAGIC ==> GetIl2Cpp(bytes, magic, fats, key) == Ok(Image(Macho32, None))
  {
    if magic == FAT_MAGIC || magic == FAT_CIGAM {
      assert FatChoice(fats, key) != Err(NotSupported);
    }
  }

  /** The fat re-dispatch: odd keys pick the first entry, even keys other than
      `0` the second, and `0` (entry -1) has no entry. The entry's own magic
      chooses between the 64-bit and the 32-bit reader. */
  lemma FatChoiceSlots(fats: seq<u32>, key: char)
    requires '0' <= key <= '9'
    ensures key == '0' ==> FatChoice(fats, key) == Err(NoSuchPlatform)
    ensures var slot := if (key as int - '0' as int) % 2 == 1 then 0 else 1;
      key != '0' ==>
        FatChoice(fats, key) == if slot < |fats| then Ok(Image(MachoKind(fats[slot]), Some(slot))) else Err(NoSuchPlatform)
  {
  }

  /** The 64-bit reader is used exactly for the 64-bit magic. */
  lemma MachoKindIff(magic: u32)
    ensures MachoKind(magic) == Macho64 <==> magic == MACHO64_MAGIC
    ensures MachoKind(magic) == Macho32 <==> magic != MACHO64_MAGIC
  {
  }

  // ---------------------------------------------------------------------------
  // The mode

  /** The registration lookup the user picked. */
  datatype Mode =
    | Manual(codeRegistration: u64, metadataRegistration: u64)
    | Search
    | PlusSearch(methodCount: nat, typeDefinitionCount: nat)
    | SymbolSearch

  /** `methodDefs.Count(x => x.methodIndex >= 0)`: the methods that have code. */
  function CountWithCode(methodIndices: seq<int>): (r: nat)
    ensures r <= |methodIndices|
  {
    if methodIndices == [] then 0
    else CountWithCode(methodIndices[..|methodIndices| - 1]) + (if methodIndices[|methodIndices| - 1] >= 0 then 1 else 0)
  }

  lemma {:induction false} CountWithCodeConcat(a: seq<int>, b: seq<int>)
    ensures CountWithCode(a + b) == CountWithCode(a) + CountWithCode(b)
    decreases |b|
  {
    if b == [] {
      assert a + b == a;
    } else {
      var b' := b[..|b| - 1];
      assert (a + b)[..|a + b| - 1] == a + b';
      CountWithCodeConcat(a, b');
    }
  }

  /** Every method has code exactly when the count is the number of methods. */
  lemma {:induction false} CountWithCodeAll(methodIndices: seq<int>)
    ensures CountWithCode(methodIndices) == |methodIndices| <==>
      forall i :: 0 <= i < |methodIndices| ==> methodIndices[i] >= 0
  {
    if methodIndices != [] {
      var init := methodIndices[..|methodIndices| - 1];
      CountWithCodeAll(init);
      assert forall i :: 0 <= i < |init| ==> init[i] == methodIndices[i];
    }
  }

  /** The `switch` on the key pressed. `manual` is what the two typed hex
      addresses parse to (`None` when `Convert.ToUInt64` throws). The result is
      `None` for a key that is no mode, where `Init` returns `false`. */
  function SelectMode(key: char, manual: Option<(u64, u64)>, methodIndices: seq<int>,
                      typeDefinitionCount: nat): (r: Result<Option<Mode>, Error>)
  {
    if key == '1' then
      match manual
      case None => Err(ModeFailed)
      case Some((code, meta)) => Ok(Some(Manual(code, meta)))
    else if key == '2' then Ok(Some(Search))
    else if key == '3' then Ok(Some(PlusSearch(CountWithCode(methodIndices), typeDefinitionCount)))
    else if key == '4' then Ok(Some(SymbolSearch))
    else Ok(None)
  }

  /** The mode keys. */
  lemma SelectModeKeys(key: char, manual: Option<(u64, u64)>, methodIndices: seq<int>, typeDefinitionCount: nat)
    ensures var r := SelectMode(key, manual, methodIndices, typeDefinitionCount);
      && (r == Ok(None) <==> key !in "1234")
      && (r.Err? <==> key == '1' && manual.None?)
      && (key == '1' && manual.Some? ==> r == Ok(Some(Manual(manual.value.0, manual.value.1))))
      && (key == '2' ==> r == Ok(Some(Search)))
      && (key == '3' ==> r == Ok(Some(PlusSearch(CountWithCode(methodIndices), typeDefinitionCount))))
      && (key == '4' ==> r == Ok(Some(SymbolSearch)))
  {
    assert "1234"[0] == '1' && "1234"[1] == '2' && "1234"[2] == '3' && "1234"[3] == '4';
  }

  // ---------------------------------------------------------------------------
  // Init

  /** What `Init` has set up when it returns `true`. */
  datatype Session = Session(version: int, image: Image, mode: Mode)

  /** `Init` with the collaborators' answers as parameters: `unityInput` the
      typed Unity version, `forcedVersion` the configured override of the
      metadata version, `fats` and `platformKey` the fat Mach-O entries and the
      key chosen, `modeKey` and `manual` the mode and the typed addresses,
      `methodIndices` and `typeDefinitionCount` what the metadata holds, and
      `modeOk` whether the chosen mode succeeds: the search for keys `2` to `4`,
      `il2cpp.Init` with the typed addresses for key `1`; any failure there is
      the "Can't use this mode" error. `Ok(None)` is `false`. */
  function Init(il2cpp: seq<byte>, metadata: seq<byte>, unityInput: string, forcedVersion: Option<int>,
                fats: seq<u32>, platformKey: char, modeKey: char, manual: Option<(u64, u64)>,
                methodIndices: seq<int>, typeDefinitionCount: nat, modeOk: bool): Result<Option<Session>, Error>
  {
    match ReadU32(metadata, 0)
    case None => Err(TooShort)
    case Some(sanity) =>
      if sanity != METADATA_MAGIC then Err(InvalidMetadata)
      else
        match FixedMetadataVersion(metadata, unityInput)
        case Err(e) => Err(e)
        case Ok(fixedVersion) =>
          match ReadU32(il2cpp, 0)
          case None => Err(TooShort)
          case Some(magic) =>
            var version := if forcedVersion.Some? then forcedVersion.value else fixedVersion;
            match GetIl2Cpp(il2cpp, magic, fats, platformKey)
            case Err(e) => Err(e)
            case Ok(image) =>
              match SelectMode(modeKey, manual, methodIndices, typeDefinitionCount)
              case Err(e) => Err(e)
              case Ok(None) => Ok(None)
              case Ok(Some(mode)) =>
                if modeOk then Ok(Some(Session(version, image, mode)))
                else Err(ModeFailed)
  }

  /** Metadata without its magic is refused before anything else is looked at. */
  lemma InitChecksMagicFirst(il2cpp: seq<byte>, metadata: seq<byte>, unityInput: string, forcedVersion: Option<int>,
                             fats: seq<u32>, platformKey: char, modeKey: char, manual: Option<(u64, u64)>,
                             methodIndices: seq<int>, typeDefinitionCount: nat, modeOk: bool)
    requires ReadU32(metadata, 0).Some? && ReadU32(metadata, 0).value != METADATA_MAGIC
    ensures Init(il2cpp, metadata, unityInput, forcedVersion, fats, platformKey, modeKey, manual,
                 methodIndices, typeDefinitionCount, modeOk) == Err(InvalidMetadata)
  {
  }

  /** A session is set up only from valid metadata, a known binary, a mode key,
      and a mode that succeeds; its version is the forced one if any. */
  lemma InitSession(il2cpp: seq<byte>, metadata: seq<byte>, unityInput: string, forcedVersion: Option<int>,
                    fats: seq<u32>, platformKey: char, modeKey: char, manual: Option<(u64, u64)>,
                    methodIndices: seq<int>, typeDefinitionCount: nat, modeOk: bool)
    ensures var r := Init(il2cpp, metadata, unityInput, forcedVersion, fats, platformKey, modeKey, manual,
                          methodIndices, typeDefinitionCount, modeOk);
      r.Ok? && r.value.Some? ==>
        && ReadU32(metadata, 0) == Some(METADATA_MAGIC)
        && ReadU32(il2cpp, 0).Some? && KnownMagic(ReadU32(il2cpp, 0).value)
        && modeKey in "1234"
        && modeOk
        && (forcedVersion.Some? ==> r.value.value.version == forcedVersion.value)
        && (forcedVersion.None? ==> Ok(r.value.value.version) == FixedMetadataVersion(metadata, unityInput))
  {
    var r := Init(il2cpp, metadata, unityInput, forcedVersion, fats, platformKey, modeKey, manual,
                  methodIndices, typeDefinitionCount, modeOk);
    if r.Ok? && r.value.Some? {
      var magic := ReadU32(il2cpp, 0).value;
      DispatchKinds(il2cpp, magic, fats, platformKey);
      SelectModeKeys(modeKey, manual, methodIndices, typeDefinitionCount);
    }
  }

  /** A mode that fails is an error, never a silent `false`. */
  lemma InitSearchFails(il2cpp: seq<byte>, metadata: seq<byte>, unityInput: string, forcedVersion: Option<int>,
                        fats: seq<u32>, platformKey: char, modeKey: char, manual: Option<(u64, u64)>,
                        methodIndices: seq<int>, typeDefinitionCount: nat)
    requires modeKey in "1234"
    ensures var r := Init(il2cpp, metadata, unityInput, forcedVersion, fats, platformKey, modeKey, manual,
                          methodIndices, typeDefinitionCount, false);
      r.Err?
  {
  }
}
