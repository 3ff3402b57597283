/** The C# modifier keywords the dump generator derives from metadata flags:
    methods (with the generator's memo table), type headers, fields, parameters
    and property declarations. Flag layouts are those of ECMA-335 Partition II:
    MethodAttributes (section II.23.1.10), TypeAttributes (II.23.1.15),
    FieldAttributes (II.23.1.5) and ParamAttributes (II.23.1.13). */
module Modifiers {
  import opened Bits
  import opened Wrappers
  import opened Keywords

  // ---------------------------------------------------------------------------
  // Flag values

  /** MethodAttributes and FieldAttributes share the member access field and its values. */
  const MEMBER_ACCESS_MASK := 0x0007
  const ACCESS_PRIVATE := 0x0001
  const ACCESS_FAM_AND_ASSEM := 0x0002
  const ACCESS_ASSEMBLY := 0x0003
  const ACCESS_FAMILY := 0x0004
  const ACCESS_FAM_OR_ASSEM := 0x0005
  const ACCESS_PUBLIC := 0x0006

  const METHOD_STATIC := 0x0010
  const METHOD_FINAL := 0x0020
  const METHOD_VIRTUAL := 0x0040
  const METHOD_VTABLE_LAYOUT_MASK := 0x0100
  const METHOD_REUSE_SLOT := 0x0000
  const METHOD_NEW_SLOT := 0x0100
  const METHOD_ABSTRACT := 0x0400
  const METHOD_PINVOKE_IMPL := 0x2000

  const TYPE_VISIBILITY_MASK := 0x0007
  const TYPE_NOT_PUBLIC := 0x0000
  const TYPE_PUBLIC := 0x0001
  const TYPE_NESTED_PUBLIC := 0x0002
  const TYPE_NESTED_PRIVATE := 0x0003
  const TYPE_NESTED_FAMILY := 0x0004
  const TYPE_NESTED_ASSEMBLY := 0x0005
  const TYPE_NESTED_FAM_AND_ASSEM := 0x0006
  const TYPE_NESTED_FAM_OR_ASSEM := 0x0007
  const TYPE_INTERFACE := 0x0020
  const TYPE_ABSTRACT := 0x0080
  const TYPE_SEALED := 0x0100
  const TYPE_SERIALIZABLE := 0x2000

  const FIELD_STATIC := 0x0010
  const FIELD_INIT_ONLY := 0x0020
  const FIELD_LITERAL := 0x0040

  const PARAM_OUT := 0x0002
  const PARAM_OPTIONAL := 0x0010

  /** `(flags & mask) != 0`. */
  predicate Flag(flags: u32, mask: nat) {
    BitAnd(flags, mask) != 0
  }

  /** A one-bit mask tests exactly that binary digit of the flags. */
  lemma FlagBit(flags: u32, k: nat)
    ensures Flag(flags, Pow2(k)) <==> (flags / Pow2(k)) % 2 == 1
  {
    BitAndField(flags, k, 1);
    ShrDiv(flags, k);
    assert Pow2(1) == 2;
    assert Shl(Pow2(1) - 1, k) == Pow2(k);
  }

  /** `flags & 7`: the access field of a member or the visibility field of a type. */
  function Access(flags: u32): (r: nat)
    ensures r == flags % 8
  {
    Pow2Small();
    BitAndLowMask(flags, 3);
    BitAnd(flags, 7)
  }

  /** The access keywords of a method or field (the same switch for both). */
  function AccessKeywords(access: nat): seq<Keyword> {
    if access == ACCESS_PRIVATE then [Private]
    else if access == ACCESS_PUBLIC then [Public]
    else if access == ACCESS_FAMILY then [Protected]
    else if access == ACCESS_ASSEMBLY || access == ACCESS_FAM_AND_ASSEM then [Internal]
    else if access == ACCESS_FAM_OR_ASSEM then [Protected, Internal]
    else []
  }

  /** The compiler-controlled access (0) and the unused value 7 give no keyword;
      every other access value gives its C# keyword. */
  lemma AccessKeywordsCases(flags: u32)
    ensures var ks := AccessKeywords(Access(flags));
      (ks == [] <==> flags % 8 == 0 || flags % 8 == 7)
      && (Private in ks <==> flags % 8 == 1)
      && (Public in ks <==> flags % 8 == 6)
      && (Protected in ks <==> flags % 8 == 4 || flags % 8 == 5)
      && (Internal in ks <==> flags % 8 == 2 || flags % 8 == 3 || flags % 8 == 5)
  {
  }

  // ---------------------------------------------------------------------------
  // Methods

  /** Whether the vtable layout field is REUSE_SLOT or NEW_SLOT. */
  predicate ReuseSlot(flags: u32) {
    BitAnd(flags, METHOD_VTABLE_LAYOUT_MASK) == METHOD_REUSE_SLOT
  }

  predicate NewSlot(flags: u32) {
    BitAnd(flags, METHOD_VTABLE_LAYOUT_MASK) == METHOD_NEW_SLOT
  }

  /** The one-bit vtable layout field takes exactly one of its two values. */
  lemma SlotCases(flags: u32)
    ensures ReuseSlot(flags) <==> !NewSlot(flags)
    ensures NewSlot(flags) <==> (flags / 0x100) % 2 == 1
  {
    Pow2Small();
    BitAndField(flags, 8, 1);
    ShrDiv(flags, 8);
    assert Shl(Pow2(1) - 1, 8) == 0x100;
    assert Shl(Shr(flags, 8) % 2, 8) == (Shr(flags, 8) % 2) * 0x100;
  }

  function StaticKeywords(flags: u32): seq<Keyword> {
    if Flag(flags, METHOD_STATIC) then [Static] else []
  }

  function VirtualityKeywords(flags: u32): seq<Keyword> {
    if Flag(flags, METHOD_ABSTRACT) then
      [Abstract] + (if ReuseSlot(flags) then [Override] else [])
    else if Flag(flags, METHOD_FINAL) then
      if ReuseSlot(flags) then [Sealed, Override] else []
    else if Flag(flags, METHOD_VIRTUAL) then
      if NewSlot(flags) then [Virtual] else [Override]
    else []
  }

  function ExternKeywords(flags: u32): seq<Keyword> {
    if Flag(flags, METHOD_PINVOKE_IMPL) then [Extern] else []
  }

  /** The keywords `GetModifiers` writes for a method, in order:
      access, `static`, virtuality, `extern`. */
  function MethodKeywords(flags: u32): seq<Keyword> {
    AccessKeywords(Access(flags)) + StaticKeywords(flags) + VirtualityKeywords(flags) + ExternKeywords(flags)
  }

  /** The modifier text of a method; C#'s `null` for "no modifier" is the empty string. */
  function MethodModifiers(flags: u32): string {
    Render(MethodKeywords(flags))
  }

  /** The modifier text reads back as exactly the method's keywords, and it is
      empty (C# `null`) exactly when no keyword applies. */
  lemma MethodModifiersParse(flags: u32)
    ensures Parse(MethodModifiers(flags)) == Some(MethodKeywords(flags))
    ensures MethodModifiers(flags) == "" <==> MethodKeywords(flags) == []
  {
    ParseRender(MethodKeywords(flags));
  }

  lemma MethodStaticKeyword(flags: u32)
    ensures Static in MethodKeywords(flags) <==> Flag(flags, METHOD_STATIC)
  {
  }

  lemma MethodExternKeyword(flags: u32)
    ensures Extern in MethodKeywords(flags) <==> Flag(flags, METHOD_PINVOKE_IMPL)
  {
  }

  lemma MethodAbstractKeyword(flags: u32)
    ensures Abstract in MethodKeywords(flags) <==> Flag(flags, METHOD_ABSTRACT)
  {
  }

  /** `override` is written exactly for a REUSE_SLOT method that is abstract, final or virtual. */
  lemma MethodOverrideKeyword(flags: u32)
    ensures Override in MethodKeywords(flags)
        <==> ReuseSlot(flags)
             && (Flag(flags, METHOD_ABSTRACT) || Flag(flags, METHOD_FINAL) || Flag(flags, METHOD_VIRTUAL))
  {
    SlotCases(flags);
  }

  /** `sealed` only for a final, non-abstract method that reuses its slot. */
  lemma MethodSealedKeyword(flags: u32)
    ensures Sealed in MethodKeywords(flags)
        <==> !Flag(flags, METHOD_ABSTRACT) && Flag(flags, METHOD_FINAL) && ReuseSlot(flags)
  {
  }

  /** `virtual` only for a virtual method that opens a new slot and is neither abstract nor final. */
  lemma MethodVirtualKeyword(flags: u32)
    ensures Virtual in MethodKeywords(flags)
        <==> !Flag(flags, METHOD_ABSTRACT) && !Flag(flags, METHOD_FINAL)
             && Flag(flags, METHOD_VIRTUAL) && NewSlot(flags)
  {
  }

  /** A method definition as the memo table sees it: its identity (the position
      in the metadata's method table) and its flags. */
  datatype MethodDef = MethodDef(index: nat, flags: u32)

  /** The generator's `methodModifiers` dictionary with `GetModifiers`. */
  class MethodModifierCache {
    var entries: map<MethodDef, string>

    /** Every stored string is the modifier text of its method. */
    ghost predicate Valid()
      reads this
    {
      forall m :: m in entries ==> entries[m] == MethodModifiers(m.flags)
    }

    constructor ()
      ensures Valid() && entries == map[]
    {
      entries := map[];
    }

    /** The stored string on a hit, otherwise the string built and stored for `m`. */
    method GetModifiers(m: MethodDef) returns (str: string)
      requires Valid()
      modifies this
      ensures Valid()
      ensures str == MethodModifiers(m.flags)
      ensures m in old(entries) ==> entries == old(entries)
      ensures m !in old(entries) ==> entries == old(entries)[m := str]
      ensures forall k :: k in old(entries) ==> k in entries && entries[k] == old(entries)[k]
    {
      if m in entries {
        return entries[m];
      }
      str := BuildModifiers(m.flags);
      entries := entries[m := str];
    }
  }

  /** The miss path of `GetModifiers`: the modifier text built keyword by keyword. */
  method BuildModifiers(flags: u32) returns (str: string)
    ensures str == MethodModifiers(flags)
  {
    str := "";
    var accessText := AccessModifiers(BitAnd(flags, MEMBER_ACCESS_MASK));
    str := str + accessText;
    ghost var s1 := str;
    if BitAnd(flags, METHOD_STATIC) != 0 {
      str := str + "static ";
    }
    ghost var s2 := str;
    var virtualText := VirtualityModifiers(flags);
    str := str + virtualText;
    ghost var s3 := str;
    if BitAnd(flags, METHOD_PINVOKE_IMPL) != 0 {
      str := str + "extern ";
    }
    MethodTextPieces(flags, s1, s2, s3, str);
  }

  /** The access switch of `GetModifiers`. */
  method AccessModifiers(access: nat) returns (str: string)
    ensures str == Render(AccessKeywords(access))
  {
    str := "";
    if access == ACCESS_PRIVATE {
      str := str + "private ";
    } else if access == ACCESS_PUBLIC {
      str := str + "public ";
    } else if access == ACCESS_FAMILY {
      str := str + "protected ";
    } else if access == ACCESS_ASSEMBLY || access == ACCESS_FAM_AND_ASSEM {
      str := str + "internal ";
    } else if access == ACCESS_FAM_OR_ASSEM {
      str := str + "protected internal ";
      RenderPair(Protected, Internal, str);
    }
  }

  /** The abstract / final / virtual cascade of `GetModifiers`. */
  method VirtualityModifiers(flags: u32) returns (str: string)
    ensures str == Render(VirtualityKeywords(flags))
  {
    str := "";
    if BitAnd(flags, METHOD_ABSTRACT) != 0 {
      str := str + "abstract ";
      if BitAnd(flags, METHOD_VTABLE_LAYOUT_MASK) == METHOD_REUSE_SLOT {
        str := str + "override ";
        RenderPair(Abstract, Override, str);
      }
    } else if BitAnd(flags, METHOD_FINAL) != 0 {
      if BitAnd(flags, METHOD_VTABLE_LAYOUT_MASK) == METHOD_REUSE_SLOT {
        str := str + "sealed override ";
        RenderPair(Sealed, Override, str);
      }
    } else if BitAnd(flags, METHOD_VIRTUAL) != 0 {
      if BitAnd(flags, METHOD_VTABLE_LAYOUT_MASK) == METHOD_NEW_SLOT {
        str := str + "virtual ";
      } else {
        str := str + "override ";
      }
    }
  }

  /** The text of two keywords, however the generator splits the literal. */
  lemma RenderPair(k1: Keyword, k2: Keyword, text: string)
    requires text == Text(k1) + Text(k2)
    ensures text == Render([k1, k2])
  {
    assert [k1, k2][1..] == [k2];
    assert [k2][1..] == [];
    assert Render([k2]) == Text(k2) + "";
  }

  /** The four pieces `GetModifiers` appends make the method's modifier text. */
  lemma MethodTextPieces(flags: u32, a: string, s: string, v: string, e: string)
    requires a == Render(AccessKeywords(Access(flags)))
    requires s == a + (if Flag(flags, METHOD_STATIC) then "static " else "")
    requires v == s + Render(VirtualityKeywords(flags))
    requires e == v + (if Flag(flags, METHOD_PINVOKE_IMPL) then "extern " else "")
    ensures e == MethodModifiers(flags)
  {
    var aw, sw, vw, ew := AccessKeywords(Access(flags)), StaticKeywords(flags), VirtualityKeywords(flags), ExternKeywords(flags);
    assert Render(sw) == if Flag(flags, METHOD_STATIC) then "static " else "";
    assert Render(ew) == if Flag(flags, METHOD_PINVOKE_IMPL) then "extern " else "";
    RenderConcat(aw, sw);
    RenderConcat(aw + sw, vw);
    RenderConcat(aw + sw + vw, ew);
  }

  // ---------------------------------------------------------------------------
  // Types

  /** The parent type names that make a type a struct or an enum. */
  predicate IsStruct(parent: Option<string>) {
    parent == Some("ValueType")
  }

  predicate IsEnum(parent: Option<string>) {
    parent == Some("Enum")
  }

  /** The visibility keywords of a type: every visibility value gives one. */
  function TypeVisibilityKeywords(visibility: nat): seq<Keyword> {
    if visibility == TYPE_PUBLIC || visibility == TYPE_NESTED_PUBLIC then [Public]
    else if visibility == TYPE_NOT_PUBLIC || visibility == TYPE_NESTED_FAM_AND_ASSEM
         || visibility == TYPE_NESTED_ASSEMBLY then [Internal]
    else if visibility == TYPE_NESTED_PRIVATE then [Private]
    else if visibility == TYPE_NESTED_FAMILY then [Protected]
    else if visibility == TYPE_NESTED_FAM_OR_ASSEM then [Protected, Internal]
    else []
  }

  function TypeModifierKeywords(flags: u32, parent: Option<string>): seq<Keyword> {
    if Flag(flags, TYPE_ABSTRACT) && Flag(flags, TYPE_SEALED) then [Static]
    else if !Flag(flags, TYPE_INTERFACE) && Flag(flags, TYPE_ABSTRACT) then [Abstract]
    else if !IsStruct(parent) && !IsEnum(parent) && Flag(flags, TYPE_SEALED) then [Sealed]
    else []
  }

  function TypeKind(flags: u32, parent: Option<string>): Keyword {
    if Flag(flags, TYPE_INTERFACE) then Interface
    else if IsStruct(parent) then Struct
    else if IsEnum(parent) then Enum
    else Class
  }

  /** The keywords in front of a type's name: visibility, modifier, kind. */
  function TypeKeywords(flags: u32, parent: Option<string>): seq<Keyword> {
    TypeVisibilityKeywords(Access(flags)) + TypeModifierKeywords(flags, parent) + [TypeKind(flags, parent)]
  }

  /** The base list: the parent unless it is `ValueType`, `Enum` or `object`, then the interfaces. */
  function Extends(parent: Option<string>, interfaces: seq<string>): (r: seq<string>)
    ensures |r| >= |interfaces| && r[|r| - |interfaces|..] == interfaces
    ensures |r| > |interfaces| <==> parent.Some? && parent.value !in {"ValueType", "Enum", "object"}
    ensures |r| > |interfaces| ==> r[0] == parent.value
  {
    var base := if parent.Some? && parent != Some("ValueType") && parent != Some("Enum")
                   && parent != Some("object") then [parent.value] else [];
    base + interfaces
  }

  /** The attribute line written above a serializable type when attributes are dumped. */
  function SerializableLine(flags: u32, dumpAttribute: bool): string {
    if dumpAttribute && Flag(flags, TYPE_SERIALIZABLE) then "[Serializable]\n" else ""
  }

  /** The text after the name: ` : ` and the base list, or nothing without one. */
  function BaseListText(ext: seq<string>): (r: string)
    ensures r == "" <==> ext == []
  {
    if ext == [] then "" else " : " + Join(", ", ext)
  }

  /** The type declaration line up to the opening brace: the `[Serializable]` line
      when attributes are dumped, the keywords, the name and the base list. The
      custom attributes and the type index comment are not part of this model. */
  function TypeHeader(flags: u32, parent: Option<string>, interfaces: seq<string>, name: string,
                      dumpAttribute: bool): (r: string)
    ensures var pre := SerializableLine(flags, dumpAttribute);
      var n := |pre| + |Render(TypeKeywords(flags, parent))|;
      |r| >= n + |name|
      && r[..|pre|] == pre
      && Parse(r[|pre|..n]) == Some(TypeKeywords(flags, parent))
      && r[n..n + |name|] == name
      && (|r| == n + |name| <==> Extends(parent, interfaces) == [])
  {
    var pre := SerializableLine(flags, dumpAttribute);
    var kw := Render(TypeKeywords(flags, parent));
    var post := BaseListText(Extends(parent, interfaces));
    ParseRender(TypeKeywords(flags, parent));
    Parts(pre, kw, name, post);
    pre + kw + name + post
  }

  /** The four consecutive parts of a concatenation. */
  lemma Parts(a: string, b: string, c: string, d: string)
    ensures var r := a + b + c + d;
      |r| >= |a| + |b| + |c|
      && r[..|a|] == a && r[|a|..|a| + |b|] == b && r[|a| + |b|..|a| + |b| + |c|] == c
      && (|r| == |a| + |b| + |c| <==> d == "")
  {
    var r := a + b + c + d;
    assert r == a + (b + (c + d));
    assert r[..|a|] == a;
    assert (b + (c + d))[..|b|] == b;
    assert (c + d)[..|c|] == c;
  }

  /** Every type is written with exactly one visibility keyword run, never empty. */
  lemma TypeVisibilityTotal(flags: u32)
    ensures TypeVisibilityKeywords(Access(flags)) != []
  {
  }

  /** `static` marks exactly the abstract sealed types. */
  lemma TypeStaticKeyword(flags: u32, parent: Option<string>)
    ensures Static in TypeKeywords(flags, parent)
        <==> Flag(flags, TYPE_ABSTRACT) && Flag(flags, TYPE_SEALED)
  {
  }

  /** `abstract` is written for abstract, non-sealed types, and never for an interface. */
  lemma TypeAbstractKeyword(flags: u32, parent: Option<string>)
    ensures Abstract in TypeKeywords(flags, parent)
        <==> Flag(flags, TYPE_ABSTRACT) && !Flag(flags, TYPE_SEALED) && !Flag(flags, TYPE_INTERFACE)
  {
  }

  /** `sealed` is written for sealed, non-abstract classes and interfaces, never for a struct or an enum. */
  lemma TypeSealedKeyword(flags: u32, parent: Option<string>)
    ensures Sealed in TypeKeywords(flags, parent)
        <==> Flag(flags, TYPE_SEALED) && !Flag(flags, TYPE_ABSTRACT) && !IsStruct(parent) && !IsEnum(parent)
  {
  }

  /** The last keyword is the only kind keyword, chosen interface > struct > enum > class. */
  lemma TypeKindKeyword(flags: u32, parent: Option<string>)
    ensures var ks := TypeKeywords(flags, parent);
      |ks| >= 2
      && (forall i :: 0 <= i < |ks| - 1 ==> ks[i] !in {Interface, Struct, Enum, Class})
      && ks[|ks| - 1] in {Interface, Struct, Enum, Class}
      && (ks[|ks| - 1] == Interface <==> Flag(flags, TYPE_INTERFACE))
      && (ks[|ks| - 1] == Struct <==> !Flag(flags, TYPE_INTERFACE) && parent == Some("ValueType"))
      && (ks[|ks| - 1] == Enum <==> !Flag(flags, TYPE_INTERFACE) && parent == Some("Enum"))
  {
  }

  // ---------------------------------------------------------------------------
  // Fields and parameters

  /** The keywords in front of a field's type: access, then `const`, or `static` and `readonly`. */
  function FieldKeywords(attrs: u32): seq<Keyword> {
    AccessKeywords(Access(attrs))
      + if Flag(attrs, FIELD_LITERAL) then [Const]
        else
          (if Flag(attrs, FIELD_STATIC) then [Static] else [])
          + (if Flag(attrs, FIELD_INIT_ONLY) then [Readonly] else [])
  }

  /** A literal field is `const` and never `static` or `readonly`; any other field is
      `static` and `readonly` exactly as its flags say. */
  lemma FieldKeywordRules(attrs: u32)
    ensures var ks := FieldKeywords(attrs);
      (Const in ks <==> Flag(attrs, FIELD_LITERAL))
      && (Static in ks <==> !Flag(attrs, FIELD_LITERAL) && Flag(attrs, FIELD_STATIC))
      && (Readonly in ks <==> !Flag(attrs, FIELD_LITERAL) && Flag(attrs, FIELD_INIT_ONLY))
  {
  }

  /** The keywords in front of a parameter's type: `optional` before `out`. */
  function ParamKeywords(attrs: u32): seq<Keyword> {
    (if Flag(attrs, PARAM_OPTIONAL) then [Optional] else [])
      + (if Flag(attrs, PARAM_OUT) then [Out] else [])
  }

  /** `optional` and `out` appear exactly as the flags say, `optional` first. */
  lemma ParamKeywordRules(attrs: u32)
    ensures var ks := ParamKeywords(attrs);
      (Optional in ks <==> Flag(attrs, PARAM_OPTIONAL))
      && (Out in ks <==> Flag(attrs, PARAM_OUT))
      && |ks| <= 2
      && (|ks| == 2 ==> ks == [Optional, Out])
  {
  }

  lemma ParamText(attrs: u32, text: string)
    requires text == (if Flag(attrs, PARAM_OPTIONAL) then "optional " else "")
                     + (if Flag(attrs, PARAM_OUT) then "out " else "")
    ensures text == Render(ParamKeywords(attrs))
  {
    var o: seq<Keyword> := if Flag(attrs, PARAM_OPTIONAL) then [Optional] else [];
    var u: seq<Keyword> := if Flag(attrs, PARAM_OUT) then [Out] else [];
    assert Render(o) == if Flag(attrs, PARAM_OPTIONAL) then "optional " else "";
    assert Render(u) == if Flag(attrs, PARAM_OUT) then "out " else "";
    RenderConcat(o, u);
  }

  /** One parameter as the generator writes it. */
  function ParameterText(attrs: u32, typeName: string, name: string): string {
    Render(ParamKeywords(attrs)) + typeName + " " + name
  }

  /** A parameter given to the generator: its type's attributes and the two names. */
  datatype Parameter = Parameter(attrs: u32, typeName: string, name: string)

  /** The loop over a method's parameters, collecting their texts. */
  method ParameterStrings(ps: seq<Parameter>) returns (strs: seq<string>)
    ensures |strs| == |ps|
    ensures forall j :: 0 <= j < |ps| ==> strs[j] == ParameterText(ps[j].attrs, ps[j].typeName, ps[j].name)
  {
    strs := [];
    for j := 0 to |ps|
      invariant |strs| == j
      invariant forall i :: 0 <= i < j ==> strs[i] == ParameterText(ps[i].attrs, ps[i].typeName, ps[i].name)
    {
      var p := ps[j];
      var parameterStr := "";
      if Flag(p.attrs, PARAM_OPTIONAL) {
        parameterStr := parameterStr + "optional ";
      }
      if Flag(p.attrs, PARAM_OUT) {
        parameterStr := parameterStr + "out ";
      }
      ParamText(p.attrs, parameterStr);
      parameterStr := parameterStr + p.typeName + " " + p.name;
      assert parameterStr == ParameterText(p.attrs, p.typeName, p.name);
      var prev := strs;
      strs := prev + [parameterStr];
      assert forall i :: 0 <= i < j ==> strs[i] == prev[i];
    }
  }

  // ---------------------------------------------------------------------------
  // Properties

  /** A property's two accessor indices (negative when absent) and, for each
      accessor, the modifier text and type name the generator would write. */
  datatype Property = Property(getter: int, setter: int, getModifiers: string, getType: string,
                               setModifiers: string, setType: string, name: string)

  /** The accessor list and closing brace. */
  function Accessors(p: Property): string {
    (if p.getter >= 0 then "get; " else "") + (if p.setter >= 0 then "set; " else "") + "}"
  }

  /** The property line as written: the declaration comes from the getter, or from the
      setter only when its index is positive. */
  function PropertyLineAsWritten(p: Property): string {
    (if p.getter >= 0 then p.getModifiers + p.getType + " " + p.name + " { "
     else if p.setter > 0 then p.setModifiers + p.setType + " " + p.name + " { "
     else "")
      + Accessors(p)
  }

  /** A write-only property whose setter is the type's first method loses its declaration. */
  lemma PropertyFirstSetterDropped(p: Property)
    requires p.getter == -1 && p.setter == 0
    ensures PropertyLineAsWritten(p) == "set; }"
  {
  }

  /** The property line with the setter test the accessor list uses (`set >= 0`). */
  function PropertyLine(p: Property): string {
    (if p.getter >= 0 then p.getModifiers + p.getType + " " + p.name + " { "
     else if p.setter >= 0 then p.setModifiers + p.setType + " " + p.name + " { "
     else "")
      + Accessors(p)
  }

  /** The two agree on every property but a write-only one whose setter has index 0. */
  lemma PropertyLinesAgree(p: Property)
    ensures PropertyLineAsWritten(p) == PropertyLine(p) <==> !(p.getter < 0 && p.setter == 0)
  {
    if p.getter < 0 && p.setter == 0 {
      assert |PropertyLine(p)| > |PropertyLineAsWritten(p)|;
    }
  }

  /** Every property with an accessor gets a declaration, taken from the getter when
      there is one and from the setter otherwise, in front of its accessor list. */
  lemma PropertyLineDeclared(p: Property)
    requires p.getter >= 0 || p.setter >= 0
    ensures p.getter >= 0 ==> PropertyLine(p) == p.getModifiers + p.getType + " " + p.name + " { " + Accessors(p)
    ensures p.getter < 0 ==> PropertyLine(p) == p.setModifiers + p.setType + " " + p.name + " { " + Accessors(p)
    ensures Accessors(p) != "}"
  {
  }
}
