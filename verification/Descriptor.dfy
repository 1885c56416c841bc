/**
 The field and method descriptor parser of shellsight/internal/javadisk/descriptor.go, proved against the
 grammar of sections 4.3.2 and 4.3.3 of the Java Virtual Machine Specification.

 The grammar is a syntax tree with a printer; the parser knows nothing of either. Descriptors are byte
 strings; a `char` stands for one byte.
 */
module Descriptor {
  import opened Common

  const MAX_BYTES: nat := 65535
  const MAX_DIMENSIONS: nat := 255
  const MAX_SLOTS: nat := 255

  datatype DescriptorType = DescriptorType(text: string, className: string, width: nat, isArray: bool, isVoid: bool)

  datatype MethodDescriptor = MethodDescriptor(parameters: seq<DescriptorType>, result: DescriptorType, slots: nat)

  // ---- the grammar -------------------------------------------------------------------------------------------

  /** A component type: anything but an array. */
  datatype Item = Base(tag: char) | Object(name: string)

  /** A field type: `dims` array brackets around an item. */
  datatype FieldType = FieldType(dims: nat, item: Item)

  datatype ReturnType = Void | Value(t: FieldType)

  datatype MethodType = MethodType(parameters: seq<FieldType>, result: ReturnType)

  predicate IsBaseTag(c: char) { c in "BCDFIJSZ" }

  /** A class name in internal form: identifiers separated by slashes, none empty, none containing `. ; [ /`. */
  predicate IsClassName(name: string) {
    && name != "" && name[0] != '/' && name[|name| - 1] != '/'
    && (forall c :: c in name ==> c != '.' && c != ';' && c != '[')
    && (forall i :: 0 < i < |name| ==> !(name[i - 1] == '/' && name[i] == '/'))
  }

  predicate ItemOk(item: Item) {
    match item case Base(c) => IsBaseTag(c) case Object(name) => IsClassName(name)
  }

  predicate FieldOk(t: FieldType) { t.dims <= MAX_DIMENSIONS && ItemOk(t.item) }

  predicate ReturnOk(r: ReturnType) { r.Value? ==> FieldOk(r.t) }

  predicate MethodOk(m: MethodType) {
    (forall t :: t in m.parameters ==> FieldOk(t)) && ReturnOk(m.result) && Slots(m.parameters) <= MAX_SLOTS
  }

  function Brackets(n: nat): string { seq(n, _ => '[') }

  function PrintItem(item: Item): string {
    match item case Base(c) => [c] case Object(name) => "L" + name + ";"
  }

  function PrintField(t: FieldType): string { Brackets(t.dims) + PrintItem(t.item) }

  function PrintReturn(r: ReturnType): string {
    match r case Void => "V" case Value(t) => PrintField(t)
  }

  function PrintFields(ts: seq<FieldType>): string {
    if ts == [] then "" else PrintField(ts[0]) + PrintFields(ts[1..])
  }

  function PrintMethod(m: MethodType): string {
    "(" + PrintFields(m.parameters) + ")" + PrintReturn(m.result)
  }

  /** Slots a value occupies: two for long and double, one otherwise, arrays included. */
  function Width(t: FieldType): nat {
    if t.dims == 0 && t.item.Base? && t.item.tag in "JD" then 2 else 1
  }

  function Slots(ts: seq<FieldType>): nat {
    if ts == [] then 0 else Width(ts[0]) + Slots(ts[1..])
  }

  /** What the parser reports about a type of the grammar. */
  function Describe(t: FieldType): DescriptorType {
    DescriptorType(PrintField(t), if t.item.Object? then t.item.name else "", Width(t), t.dims > 0, false)
  }

  function DescribeReturn(r: ReturnType): DescriptorType {
    match r case Void => DescriptorType("V", "", 0, false, true) case Value(t) => Describe(t)
  }

  function DescribeAll(ts: seq<FieldType>): seq<DescriptorType> {
    seq(|ts|, i requires 0 <= i < |ts| => Describe(ts[i]))
  }

  function DescribeMethod(m: MethodType): MethodDescriptor {
    MethodDescriptor(DescribeAll(m.parameters), DescribeReturn(m.result), Slots(m.parameters))
  }

  // ---- class names ---------------------------------------------------------------------------------------------

  predicate IsIdentifier(p: string) { p != "" && forall k :: 0 <= k < |p| ==> p[k] !in ['.', ';', '[', '/'] }

  function Slashed(parts: seq<string>): string {
    if parts == [] then "" else if |parts| == 1 then parts[0] else parts[0] + ("/" + Slashed(parts[1..]))
  }

  ghost predicate Identifiers(parts: seq<string>) {
    parts != [] && forall i :: 0 <= i < |parts| ==> IsIdentifier(parts[i])
  }

  /** A class name is identifiers with a slash between each two. */
  lemma ClassNameIff(name: string)
    ensures IsClassName(name) <==> exists parts :: Identifiers(parts) && name == Slashed(parts)
  {
    if IsClassName(name) { var parts := IdentifiersOf(name); }
    if parts :| Identifiers(parts) && name == Slashed(parts) { SlashedIsClassName(parts); }
  }

  lemma {:induction false} IdentifiersOf(name: string) returns (parts: seq<string>)
    requires IsClassName(name)
    ensures Identifiers(parts) && name == Slashed(parts)
    decreases |name|
  {
    hide IsIdentifier, IsClassName;
    if i: nat :| i < |name| && name[i] == '/' {
      var first := FirstSlash(name, i);
      CutAtSlash(name, first);
      var more := IdentifiersOf(name[first + 1..]);
      parts := [name[..first]] + more;
      assert parts[1..] == more && name == name[..first] + ("/" + name[first + 1..]);
    } else {
      parts := [name];
      WholeIsIdentifier(name);
    }
  }

  lemma WholeIsIdentifier(name: string)
    requires IsClassName(name) && forall i: nat :: i < |name| ==> name[i] != '/'
    ensures IsIdentifier(name)
  {
    assert forall k :: 0 <= k < |name| ==> name[k] in name;
  }

  lemma CutAtSlash(name: string, first: nat)
    requires IsClassName(name) && first < |name| && name[first] == '/' && forall k :: 0 <= k < first ==> name[k] != '/'
    ensures IsIdentifier(name[..first]) && IsClassName(name[first + 1..])
  {
    assert forall k :: 0 <= k < |name| ==> name[k] in name;
    var rest := name[first + 1..];
    assert forall k :: 0 <= k < |rest| ==> rest[k] == name[k + first + 1];
    assert !(name[first] == '/' && name[first + 1] == '/');
    forall i | 0 < i < |rest| ensures !(rest[i - 1] == '/' && rest[i] == '/') {
      var j := i + first + 1;
      assert !(name[j - 1] == '/' && name[j] == '/');
    }
  }

  lemma {:induction false} FirstSlash(name: string, i: nat) returns (first: nat)
    requires i < |name| && name[i] == '/'
    ensures first < |name| && name[first] == '/' && forall k :: 0 <= k < first ==> name[k] != '/'
    decreases i
  {
    if k: nat :| k < i && name[k] == '/' { first := FirstSlash(name, k); } else { first := i; }
  }

  lemma {:induction false} SlashedIsClassName(parts: seq<string>)
    requires Identifiers(parts)
    ensures IsClassName(Slashed(parts))
  {
    var p := parts[0];
    if |parts| > 1 {
      var rest := Slashed(parts[1..]);
      SlashedIsClassName(parts[1..]);
      var name := p + ("/" + rest);
      forall i | 0 < i < |name| ensures !(name[i - 1] == '/' && name[i] == '/') {
        if i > |p| + 1 { assert name[i - 1] == rest[i - |p| - 2] && name[i] == rest[i - |p| - 1]; }
      }
    }
  }

  // ---- the grammar is prefix-free ------------------------------------------------------------------------------

  lemma Drop(a: string, b: string, s: string)
    requires s == a + b
    ensures a <= s && s[|a|..] == b
  {
  }

  lemma FieldPrefix(t: FieldType, s: string)
    requires ItemOk(t.item) && PrintField(t) <= s
    ensures t.dims < |s| && s[t.dims] == PrintItem(t.item)[0] != '['
    ensures forall k :: 0 <= k < t.dims ==> s[k] == '['
    ensures PrintItem(t.item) <= s[t.dims..]
  {
    var b, p := Brackets(t.dims), PrintItem(t.item);
    var rest := s[|b + p|..];
    assert s == (b + p) + rest == b + (p + rest);
    Drop(b, p + rest, s);
    assert forall k :: 0 <= k < t.dims ==> s[k] == b[k];
    assert s[t.dims] == (p + rest)[0] == p[0];
  }

  /** Where the characters of a printed class name stand. */
  lemma NameChars(name: string, s: string)
    requires "L" + name + ";" <= s
    ensures |name| + 1 < |s| && s[|name| + 1] == ';'
    ensures forall j :: 0 <= j < |name| ==> s[j + 1] == name[j]
    ensures name == s[1..|name| + 1]
  {
    var p := "L" + name + ";";
    assert forall j :: 0 <= j < |p| ==> s[j] == p[j];
    assert forall j :: 0 <= j < |name| ==> p[j + 1] == name[j];
  }

  /** A class name that is a prefix of `s` after its `L` runs exactly to the first semicolon. */
  lemma NamePrefix(name: string, s: string, k: nat)
    requires IsClassName(name) && "L" + name + ";" <= s
    requires 0 < k < |s| && forall j :: 0 < j < k ==> s[j] != ';'
    ensures s[k] == ';' ==> name == s[1..k]
    ensures s[k] != ';' ==> |name| >= k && name[k - 1] == s[k] && s[k] in name
    ensures |name| >= k - 1 && (k > 1 ==> name[k - 2] == s[k - 1])
  {
    NameChars(name, s);
    assert k - 1 < |name| ==> s[k] == name[k - 1] && name[k - 1] in name;
  }

  lemma FieldUnique(t: FieldType, u: FieldType, s: string)
    requires FieldOk(t) && FieldOk(u) && PrintField(t) <= s && PrintField(u) <= s
    ensures t == u
  {
    FieldPrefix(t, s);
    FieldPrefix(u, s);
    var rest := s[t.dims..];
    assert t.dims == u.dims && rest == s[u.dims..];
    ItemUnique(t.item, u.item, rest);
  }

  lemma ItemUnique(t: Item, u: Item, s: string)
    requires ItemOk(t) && ItemOk(u) && PrintItem(t) <= s && PrintItem(u) <= s
    ensures t == u
  {
    assert s[0] == PrintItem(t)[0] == PrintItem(u)[0];
    if t.Object? && u.Object? { NameUnique(t.name, u.name, s); }
  }

  lemma NameUnique(a: string, b: string, s: string)
    requires IsClassName(a) && IsClassName(b) && "L" + a + ";" <= s && "L" + b + ";" <= s
    ensures a == b
  {
    NameChars(a, s);
    assert forall j :: 0 < j < |a| + 1 ==> s[j] == a[j - 1] && a[j - 1] in a;
    NamePrefix(b, s, |a| + 1);
  }

  lemma ReturnUnique(t: ReturnType, u: ReturnType, s: string)
    requires ReturnOk(t) && ReturnOk(u) && PrintReturn(t) <= s && PrintReturn(u) <= s
    ensures t == u
  {
    if t.Value? { FieldPrefix(t.t, s); } else { assert s[0] == 'V'; }
    if u.Value? { FieldPrefix(u.t, s); } else { assert s[0] == 'V'; }
    if t.Value? && u.Value? { FieldUnique(t.t, u.t, s); }
  }

  // ---- the parser ----------------------------------------------------------------------------------------------

  /** No type of the grammar begins `s`. */
  ghost predicate NoType(s: string, allowVoid: bool) {
    forall t :: ReturnOk(t) && (t.Void? ==> allowVoid) ==> !(PrintReturn(t) <= s)
  }

  ghost predicate NoObject(s: string) {
    forall name :: IsClassName(name) ==> !("L" + name + ";" <= s)
  }

  class Parser {
    const value: string
    var index: nat

    constructor (value: string, index: nat)
      ensures this.value == value && this.index == index
    {
      this.value, this.index := value, index;
    }

    /** At an `L`: read `L name ;` and return the name. */
    method ParseObject() returns (r: Option<string>)
      requires index < |value| && value[index] == 'L'
      modifies `index
      ensures old(index) <= index <= |value|
      ensures r.Some? ==> IsClassName(r.value) && value[old(index)..index] == "L" + r.value + ";"
      ensures r.None? ==> NoObject(value[old(index)..])
    {
      var start := index;
      ghost var s := value[start..];
      index := index + 1;
      var nameStart := index;
      var componentStart := index;
      while index < |value| && value[index] != ';'
        invariant start < index <= |value| && nameStart == start + 1 <= componentStart <= index
        invariant forall k :: nameStart <= k < index ==> value[k] != ';' && value[k] != '.' && value[k] != '['
        invariant forall k :: nameStart < k < index ==> !(value[k - 1] == '/' && value[k] == '/')
        invariant nameStart < index ==> value[nameStart] != '/'
        invariant componentStart == index <==> index == nameStart || value[index - 1] == '/'
        decreases |value| - index
      {
        var c := value[index];
        if c == '.' || c == '[' {
          NotAName(s, index - start);
          return None;
        }
        if c == '/' {
          if index == componentStart {
            NotAName(s, index - start);
            return None;
          }
          componentStart := index + 1;
        }
        index := index + 1;
      }
      if index >= |value| {
        Unterminated(s);
        return None;
      }
      if index == nameStart || index == componentStart {
        NotAName(s, index - start);
        return None;
      }
      var name := value[nameStart..index];
      index := index + 1;
      r := Some(name);
    }

    /** Read one type, or `V` where that is allowed. */
    method ParseType(allowVoid: bool) returns (r: Option<DescriptorType>, ghost t: ReturnType)
      requires index <= |value|
      modifies `index
      ensures old(index) <= index <= |value|
      ensures r.Some? ==> ReturnOk(t) && (t.Void? ==> allowVoid)
      ensures r.Some? ==> r.value == DescribeReturn(t) && value[old(index)..index] == PrintReturn(t)
      ensures r.None? ==> NoType(value[old(index)..], allowVoid)
      decreases |value| - index, 1
    {
      hide NoType, NoItem, NoObject, IsClassName;
      t := Void;
      var start := index;
      ghost var s := value[start..];
      if index >= |value| {
        NothingHere(s, allowVoid);
        return None, t;
      }
      var c := value[index];
      if c == 'V' {
        if !allowVoid {
          WrongByte(s, 0, allowVoid);
          return None, t;
        }
        index := index + 1;
        return Some(DescriptorType("V", "", 0, false, true)), Void;
      } else if c in "BCFISZ" || c in "JD" {
        index := index + 1;
        t := Value(FieldType(0, Base(c)));
        assert value[start..index] == Brackets(0) + [c];
        return Some(DescriptorType(value[start..index], "", if c in "JD" then 2 else 1, false, false)), t;
      } else if c == 'L' {
        var name := ParseObject();
        if name.None? {
          NoObjectNoItem(s);
          NoItemNoType(s, 0, allowVoid);
          return None, t;
        }
        t := Value(FieldType(0, Object(name.value)));
        assert value[start..index] == Brackets(0) + PrintItem(Object(name.value));
        return Some(DescriptorType(value[start..index], name.value, 1, false, false)), t;
      } else if c == '[' {
        r, t := ParseArray(allowVoid);
      } else {
        WrongByte(s, 0, allowVoid);
        r := None;
      }
    }

    /** Advance over the brackets; stop with `tooMany` at the 256th. */
    method SkipBrackets() returns (tooMany: bool)
      requires index <= |value|
      modifies `index
      ensures old(index) <= index <= |value| && index - old(index) <= MAX_DIMENSIONS
      ensures forall k :: old(index) <= k < index ==> value[k] == '['
      ensures tooMany ==> index - old(index) == MAX_DIMENSIONS && index < |value| && value[index] == '['
      ensures !tooMany && index < |value| ==> value[index] != '['
    {
      var dimensions := 0;
      while index < |value| && value[index] == '['
        invariant index == old(index) + dimensions <= |value| && dimensions <= MAX_DIMENSIONS
        invariant forall k :: old(index) <= k < index ==> value[k] == '['
        decreases |value| - index
      {
        dimensions := dimensions + 1;
        if dimensions > MAX_DIMENSIONS { return true; }
        index := index + 1;
      }
      return false;
    }

    /** At a `[`: the brackets, then a component that is neither void nor an array. */
    method ParseArray(ghost allowVoid: bool) returns (r: Option<DescriptorType>, ghost t: ReturnType)
      requires index < |value| && value[index] == '['
      modifies `index
      ensures old(index) <= index <= |value|
      ensures r.Some? ==> ReturnOk(t) && t.Value?
      ensures r.Some? ==> r.value == DescribeReturn(t) && value[old(index)..index] == PrintReturn(t)
      ensures r.None? ==> NoType(value[old(index)..], allowVoid)
      decreases |value| - index, 0
    {
      hide NoType, NoItem, IsClassName;
      t := Void;
      var start := index;
      ghost var s := value[start..];
      var tooMany := SkipBrackets();
      if tooMany {
        TooManyBrackets(s, allowVoid);
        return None, t;
      }
      ghost var dimensions := index - start;
      if index >= |value| || value[index] == 'V' || value[index] == '[' {
        WrongByte(s, dimensions, allowVoid);
        return None, t;
      }
      ghost var at := index;
      var className, item := ParseComponent();
      if className.None? {
        NoItemNoType(s, dimensions, allowVoid);
        return None, t;
      }
      t := Value(FieldType(dimensions, item));
      assert value[start..at] == Brackets(dimensions);
      Joined(start, at, index, Brackets(dimensions), PrintItem(item));
      r := Some(DescriptorType(value[start..index], className.value, 1, true, false));
    }

    lemma Joined(i: nat, j: nat, k: nat, a: string, b: string)
      requires i <= j <= k <= |value| && value[i..j] == a && value[j..k] == b
      ensures value[i..k] == a + b
    {
    }

    method ParseComponent() returns (r: Option<string>, ghost item: Item)
      requires index < |value| && value[index] != '[' && value[index] != 'V'
      modifies `index
      ensures old(index) <= index <= |value|
      ensures r.Some? ==> ItemOk(item) && value[old(index)..index] == PrintItem(item)
      ensures r.Some? ==> r.value == if item.Object? then item.name else ""
      ensures r.None? ==> NoItem(value[old(index)..])
      decreases |value| - index, 2
    {
      item := Base('B');
      ghost var s := value[index..];
      if value[index] == 'L' {
        r := ParseObject();
        if r.Some? { item := Object(r.value); } else { NoObjectNoItem(s); }
      } else {
        var component, u := ParseType(false);
        if component.None? {
          NoTypeNoItem(s);
          return None, item;
        }
        item := u.t.item;
        PlainField(u.t, s);
        r := Some(component.value.className);
      }
    }
  }

  // ---- why a rejected text is not in the grammar ---------------------------------------------------------------

  ghost predicate NoItem(s: string) {
    forall item :: ItemOk(item) ==> !(PrintItem(item) <= s)
  }

  /** A printed field type shows its own dimensions. */
  lemma FieldHere(t: FieldType, s: string, dims: nat)
    requires FieldOk(t) && PrintField(t) <= s
    requires dims <= |s| && forall k :: 0 <= k < dims ==> s[k] == '['
    ensures t.dims >= dims && dims < |s|
    ensures s[dims] != '[' ==> t.dims == dims && PrintItem(t.item) <= s[dims..] && s[dims] == PrintItem(t.item)[0]
  {
    FieldPrefix(t, s);
  }

  lemma PlainField(t: FieldType, s: string)
    requires FieldOk(t) && PrintField(t) <= s && s != "" && s[0] != '['
    ensures t.dims == 0 && PrintField(t) == PrintItem(t.item)
  {
    FieldHere(t, s, 0);
    assert Brackets(0) == "";
  }

  lemma NothingHere(s: string, allowVoid: bool)
    requires s == ""
    ensures NoType(s, allowVoid)
  {
    forall t | ReturnOk(t) ensures !(PrintReturn(t) <= s) {
      if t.Value? { assert |PrintReturn(t)| > 0; }
    }
  }

  /** After `dims` brackets stands the end of the text, or something that begins no component. */
  lemma WrongByte(s: string, dims: nat, allowVoid: bool)
    requires dims <= |s| && forall k :: 0 <= k < dims ==> s[k] == '['
    requires dims < |s| ==> s[dims] != 'L' && s[dims] != '[' && !IsBaseTag(s[dims])
    requires allowVoid ==> s != "" && s[0] != 'V'
    ensures NoType(s, allowVoid)
  {
    forall t | ReturnOk(t) && (t.Void? ==> allowVoid) ensures !(PrintReturn(t) <= s) {
      if t.Value? && PrintField(t.t) <= s { FieldHere(t.t, s, dims); }
    }
  }

  lemma TooManyBrackets(s: string, allowVoid: bool)
    requires |s| > MAX_DIMENSIONS && forall k :: 0 <= k <= MAX_DIMENSIONS ==> s[k] == '['
    ensures NoType(s, allowVoid)
  {
    forall t | ReturnOk(t) ensures !(PrintReturn(t) <= s) {
      if t.Value? {
        if PrintField(t.t) <= s { FieldHere(t.t, s, MAX_DIMENSIONS + 1); }
      } else {
        assert s[0] == '[';
      }
    }
  }

  /** No component after the brackets, so no type. */
  lemma NoItemNoType(s: string, dims: nat, allowVoid: bool)
    requires dims < |s| && s[dims] != '[' && forall k :: 0 <= k < dims ==> s[k] == '['
    requires s[0] != 'V' && NoItem(s[dims..])
    ensures NoType(s, allowVoid)
  {
    forall t | ReturnOk(t) ensures !(PrintReturn(t) <= s) {
      if t.Value? && PrintField(t.t) <= s { FieldHere(t.t, s, dims); }
    }
  }

  lemma NoObjectNoItem(s: string)
    requires s != "" && s[0] == 'L' && NoObject(s)
    ensures NoItem(s)
  {
    forall item | ItemOk(item) ensures !(PrintItem(item) <= s) {
      if item.Base? { assert PrintItem(item)[0] != s[0]; }
    }
  }

  lemma NoTypeNoItem(s: string)
    requires NoType(s, false)
    ensures NoItem(s)
  {
    forall item | ItemOk(item) ensures !(PrintItem(item) <= s) {
      assert Brackets(0) + PrintItem(item) == PrintItem(item);
      assert ReturnOk(Value(FieldType(0, item)));
      assert PrintReturn(Value(FieldType(0, item))) == PrintItem(item);
    }
  }

  lemma Unterminated(s: string)
    requires forall k :: 0 < k < |s| ==> s[k] != ';'
    ensures NoObject(s)
  {
    forall name | IsClassName(name) ensures !("L" + name + ";" <= s) {
      if "L" + name + ";" <= s { NameChars(name, s); }
    }
  }

  /** Reading stops at position `k` because no class name can continue or end there. */
  lemma NotAName(s: string, k: nat)
    requires 0 < k < |s| && forall j :: 0 < j < k ==> s[j] != ';'
    requires s[k] == '.' || s[k] == '[' || ((s[k] == '/' || s[k] == ';') && (k == 1 || s[k - 1] == '/'))
    ensures NoObject(s)
  {
    forall name | IsClassName(name) ensures !("L" + name + ";" <= s) {
      if "L" + name + ";" <= s { NamePrefix(name, s, k); }
    }
  }

  // ---- whole descriptors ---------------------------------------------------------------------------------------

  ghost predicate IsField(value: string, t: FieldType) {
    FieldOk(t) && PrintField(t) == value && |value| <= MAX_BYTES
  }

  ghost predicate IsMethod(value: string, m: MethodType) {
    MethodOk(m) && PrintMethod(m) == value && |value| <= MAX_BYTES
  }

  /** A text is accepted exactly when it is a field descriptor, and the answer describes its one reading. */
  method ParseFieldDescriptor(value: string) returns (r: Option<DescriptorType>)
    ensures r.Some? <==> exists t :: IsField(value, t)
    ensures forall t :: IsField(value, t) ==> r == Some(Describe(t))
    ensures r.Some? ==> Tells(value, r.value)
    ensures |value| == 1 ==> (r.Some? <==> value in ["B", "C", "D", "F", "I", "J", "S", "Z"])
  {
    OneLetter(value);
    hide FieldOk, NoType, Tells;
    if |value| == 0 || |value| > MAX_BYTES {
      EmptyIsNoField(value);
      return None;
    }
    var parser := new Parser(value, 0);
    var result, t := parser.ParseType(false);
    assert value[0..] == value;
    if result.None? {
      NoTypeNoField(value);
      assert forall u :: IsField(value, u) ==> FieldOk(u) && PrintField(u) <= value;
      return None;
    }
    if parser.index != |value| {
      assert PrintField(t.t) == value[..parser.index];
      LongerIsNoField(value, t.t);
      return None;
    }
    assert value[0..|value|] == value;
    FieldIs(value, t.t);
    DescribeTells(t.t);
    r := result;
  }

  /** What is reported of the text of a field type, read off the text: long and double take two slots, an array
      begins with a bracket, and a class type ends in a semicolon behind its name. */
  ghost predicate Tells(text: string, d: DescriptorType) {
    && text != "" && d.text == text && !d.isVoid
    && (d.isArray <==> text[0] == '[')
    && d.width == (if text == "J" || text == "D" then 2 else 1)
    && if text[|text| - 1] == ';' then exists n: nat :: text == Brackets(n) + ("L" + d.className + ";") else d.className == ""
  }

  lemma DescribeTells(t: FieldType)
    requires FieldOk(t)
    ensures Tells(PrintField(t), Describe(t))
  {
    if t.item.Base? { BaseTells(t); } else { ObjectTells(t); }
  }

  lemma BaseTells(t: FieldType)
    requires FieldOk(t) && t.item.Base?
    ensures Tells(PrintField(t), Describe(t))
  {
    var text := PrintField(t);
    assert |text| == t.dims + 1 && text[|text| - 1] == t.item.tag;
    if t.dims == 0 { assert text == [t.item.tag]; } else { assert text[0] == '['; }
  }

  lemma ObjectTells(t: FieldType)
    requires FieldOk(t) && t.item.Object?
    ensures Tells(PrintField(t), Describe(t))
  {
    NamedItem(t.item);
    hide IsClassName;
    var text := PrintField(t);
    assert text == Brackets(t.dims) + ("L" + t.item.name + ";");
    assert |text| >= 3 && text[|text| - 1] == ';';
    assert text[0] == if t.dims == 0 then 'L' else '[';
  }

  lemma NamedItem(item: Item)
    requires item.Object? && ItemOk(item)
    ensures item.name != ""
  {}

  /** The eight primitive types. */
  lemma OneLetter(value: string)
    ensures |value| == 1 ==>
              ((exists t :: IsField(value, t)) <==> value in ["B", "C", "D", "F", "I", "J", "S", "Z"])
  {
    if |value| == 1 {
      var t := FieldType(0, Base(value[0]));
      assert PrintField(t) == value;
      if value in ["B", "C", "D", "F", "I", "J", "S", "Z"] { assert IsField(value, t); }
      forall u | IsField(value, u) ensures value in ["B", "C", "D", "F", "I", "J", "S", "Z"] {
        assert |PrintField(u)| == u.dims + |PrintItem(u.item)|;
        assert u.dims == 0 && PrintField(u) == PrintItem(u.item);
      }
    }
  }

  lemma EmptyIsNoField(value: string)
    requires value == "" || |value| > MAX_BYTES
    ensures forall t :: !IsField(value, t)
  {
    forall t | FieldOk(t) ensures PrintField(t) != "" { assert |PrintField(t)| >= |PrintItem(t.item)| > 0; }
  }

  lemma LongerIsNoField(value: string, t: FieldType)
    requires ReturnOk(Value(t)) && PrintField(t) < value
    ensures forall u :: !IsField(value, u)
  {
    forall u ensures !IsField(value, u) {
      if IsField(value, u) { FieldUnique(t, u, value); }
    }
  }

  lemma FieldIs(value: string, t: FieldType)
    requires ReturnOk(Value(t)) && PrintField(t) == value && |value| <= MAX_BYTES
    ensures IsField(value, t) && forall u :: IsField(value, u) ==> u == t
  {
    forall u | IsField(value, u) ensures u == t { FieldUnique(t, u, value); }
  }

  // ---- methods ----------------------------------------------------------------------------------------------------

  lemma {:induction false} PrintFieldsConcat(a: seq<FieldType>, b: seq<FieldType>)
    ensures PrintFields(a + b) == PrintFields(a) + PrintFields(b)
    ensures Slots(a + b) == Slots(a) + Slots(b)
  {
    if a == [] {
      assert a + b == b;
    } else {
      assert (a + b)[1..] == a[1..] + b;
      PrintFieldsConcat(a[1..], b);
    }
  }

  lemma PrintFieldsNext(a: seq<FieldType>, t: FieldType)
    ensures PrintFields(a + [t]) == PrintFields(a) + PrintField(t) && Slots(a + [t]) == Slots(a) + Width(t)
  {
    PrintFieldsConcat(a, [t]);
    assert PrintFields([t]) == PrintField(t) + PrintFields([]) == PrintField(t);
  }

  /** Every reading of `value` as a method descriptor begins with the parameters `read`. */
  ghost predicate BeginsWith(value: string, read: seq<FieldType>) {
    forall m :: IsMethod(value, m) ==> read <= m.parameters
  }

  lemma Regroup(x: string, y: string, z: string)
    ensures "(" + (x + y) + ")" + z == ("(" + x) + (y + ")" + z)
  {
  }

  /** What stands in `value` after the parameters read so far. */
  lemma Remaining(value: string, read: seq<FieldType>, m: MethodType)
    requires IsMethod(value, m) && read <= m.parameters
    ensures "(" + PrintFields(read) <= value
    ensures value[1 + |PrintFields(read)|..] == PrintFields(m.parameters[|read|..]) + ")" + PrintReturn(m.result)
    ensures Slots(read) + Slots(m.parameters[|read|..]) == Slots(m.parameters)
  {
    hide MethodOk, PrintFields, PrintReturn, Slots;
    var rest := m.parameters[|read|..];
    assert read + rest == m.parameters;
    PrintFieldsConcat(read, rest);
    Regroup(PrintFields(read), PrintFields(rest), PrintReturn(m.result));
    Drop("(" + PrintFields(read), PrintFields(rest) + ")" + PrintReturn(m.result), value);
  }

  /** At a `)` no parameter is left; elsewhere the next one stands there. */
  lemma NextParameter(value: string, read: seq<FieldType>, m: MethodType, at: nat)
    requires IsMethod(value, m) && read <= m.parameters && at == 1 + |PrintFields(read)|
    ensures at < |value|
    ensures value[at] == ')' <==> read == m.parameters
    ensures value[at] != ')' ==> FieldOk(m.parameters[|read|]) && PrintField(m.parameters[|read|]) <= value[at..]
    ensures value[at] == ')' ==> value[at + 1..] == PrintReturn(m.result)
  {
    hide FieldOk, PrintReturn, PrintField, PrintItem;
    Remaining(value, read, m);
    var rest := m.parameters[|read|..];
    var tail := value[at..];
    if rest == [] {
      assert read == m.parameters;
      assert tail == ")" + PrintReturn(m.result);
      Drop(")", PrintReturn(m.result), tail);
      assert value[at + 1..] == tail[1..];
    } else {
      var t := rest[0];
      assert t in m.parameters;
      Regroup3(PrintField(t), PrintFields(rest[1..]), PrintReturn(m.result));
      Drop(PrintField(t), PrintFields(rest[1..]) + ")" + PrintReturn(m.result), tail);
      FirstByte(t, tail);
    }
  }

  lemma Regroup3(x: string, y: string, z: string)
    ensures (x + y) + ")" + z == x + (y + ")" + z)
  {
  }

  lemma FirstByte(t: FieldType, s: string)
    requires FieldOk(t) && PrintField(t) <= s
    ensures s != "" && s[0] != ')'
  {
    FieldPrefix(t, s);
    assert t.dims > 0 ==> s[0] == '[';
  }

  /** Read the parameters up to and including the closing parenthesis. */
  method ParseParameters(parser: Parser) returns (r: Option<(seq<DescriptorType>, nat)>, ghost read: seq<FieldType>)
    requires parser.index == 1 <= |parser.value| <= MAX_BYTES && parser.value[..1] == "("
    modifies parser
    ensures parser.index <= |parser.value|
    ensures r.Some? ==> Reading(read, r.value.0, r.value.1) && BeginsWith(parser.value, read)
    ensures r.Some? ==> parser.value[..parser.index] == "(" + PrintFields(read) + ")"
    ensures r.None? ==> NoMethod(parser.value)
  {
    hide IsMethod, NoType, ReturnOk, BeginsWith, NoMethod, Reading, PrintField, PrintFields, PrintReturn, Describe;
    hide DescribeReturn, Slots;
    var parameters: seq<DescriptorType> := [];
    var slots: nat := 0;
    read := [];
    NothingRead(parser.value);
    while true
      invariant 0 < parser.index <= |parser.value|
      invariant parser.value[..parser.index] == "(" + PrintFields(read)
      invariant Reading(read, parameters, slots)
      invariant BeginsWith(parser.value, read)
      decreases |parser.value| - parser.index
    {
      ghost var at := parser.index;
      if parser.index >= |parser.value| {
        NoParameterNoMethod(parser.value, read, at);
        return None, read;
      }
      if parser.value[parser.index] == ')' {
        parser.index := parser.index + 1;
        Sliced(parser.value, at, parser.index);
        return Some((parameters, slots)), read;
      }
      var parameter, t := parser.ParseType(false);
      if parameter.None? {
        NoParameterNoMethod(parser.value, read, at);
        return None, read;
      }
      OneMore(parser.value, read, parameters, slots, at, parser.index, t, parameter.value);
      slots := slots + parameter.value.width;
      if slots > MAX_SLOTS {
        TooManySlots(parser.value, read + [t.t]);
        return None, read;
      }
      parameters := parameters + [parameter.value];
      read := read + [t.t];
    }
  }

  ghost predicate NoMethod(value: string) {
    forall m :: !IsMethod(value, m)
  }

  lemma NothingRead(value: string)
    ensures BeginsWith(value, []) && Reading([], [], 0) && PrintFields([]) == ""
  {
  }

  /** One parameter read: what the accumulators describe afterwards. */
  lemma OneMore(value: string, read: seq<FieldType>, parameters: seq<DescriptorType>, slots: nat,
                at: nat, to: nat, t: ReturnType, d: DescriptorType)
    requires Reading(read, parameters, slots) && BeginsWith(value, read)
    requires ReturnOk(t) && t.Value? && d == DescribeReturn(t)
    requires 0 < at <= to <= |value| && at < |value| && value[..at] == "(" + PrintFields(read)
    requires value[at..to] == PrintReturn(t) && value[at] != ')'
    ensures at < to && value[..to] == "(" + PrintFields(read + [t.t])
    ensures BeginsWith(value, read + [t.t]) && slots + d.width == Slots(read + [t.t])
    ensures slots + d.width <= MAX_SLOTS ==> Reading(read + [t.t], parameters + [d], slots + d.width)
  {
    hide FieldOk, PrintItem, BeginsWith;
    PrintFieldsNext(read, t.t);
    Sliced(value, at, to);
    ReturnNonEmpty(t);
    ParameterRead(value, read, t.t, at);
    assert DescribeAll(read + [t.t]) == DescribeAll(read) + [d];
  }

  /** A text is accepted exactly when it is a method descriptor, and the answer describes its one reading. */
  method ParseMethodDescriptor(value: string) returns (r: Option<MethodDescriptor>)
    ensures r.Some? <==> exists m :: IsMethod(value, m)
    ensures forall m :: IsMethod(value, m) ==> r == Some(DescribeMethod(m))
    ensures r.Some? ==> TellsMethod(value, r.value)
  {
    hide IsMethod, NoType, FieldOk, BeginsWith, TellsMethod;
    if |value| < 3 || |value| > MAX_BYTES || value[0] != '(' {
      ShortIsNoMethod(value);
      return None;
    }
    var parser := new Parser(value, 1);
    var parameters, read := ParseParameters(parser);
    if parameters.None? { return None; }
    ghost var close := parser.index;
    var result, u := parser.ParseType(true);
    if result.None? {
      NoReturnNoMethod(value, read);
      return None;
    }
    Sliced(value, close, parser.index);
    if parser.index != |value| {
      LongerIsNoMethod(value, read, u);
      return None;
    }
    assert value[close..parser.index] == value[close..];
    MethodIs(value, read, u);
    r := Some(MethodDescriptor(parameters.value.0, result.value, parameters.value.1));
    ghost var m :| IsMethod(value, m);
    DescribeMethodTells(value, m);
  }

  /** What is reported of a method descriptor, read off its text: the parts rebuild it, and the slots are the sum of
      the widths. */
  ghost predicate TellsMethod(value: string, d: MethodDescriptor) {
    && value == "(" + Texts(d.parameters) + ")" + d.result.text
    && (forall p :: p in d.parameters ==> Tells(p.text, p))
    && (if d.result.text == "V" then d.result == DescriptorType("V", "", 0, false, true) else Tells(d.result.text, d.result))
    && d.slots == Widths(d.parameters)
  }

  lemma DescribeMethodTells(value: string, m: MethodType)
    requires IsMethod(value, m)
    ensures TellsMethod(value, DescribeMethod(m))
  {
    hide FieldOk, Tells, Slots, Texts, Widths;
    PartsRebuild(m);
    var d := DescribeMethod(m);
    forall p | p in d.parameters ensures Tells(p.text, p) {
      var i :| 0 <= i < |d.parameters| && d.parameters[i] == p;
      assert m.parameters[i] in m.parameters;
      DescribeTells(m.parameters[i]);
    }
    if m.result.Value? {
      DescribeTells(m.result.t);
      NotVoid(m.result.t);
    }
  }

  lemma NotVoid(t: FieldType)
    requires FieldOk(t)
    ensures PrintField(t) != "V"
  {
    if t.dims > 0 { assert PrintField(t)[0] == '['; } else { assert PrintField(t) == PrintItem(t.item); }
  }

  lemma Sliced(s: string, i: nat, j: nat)
    requires i <= j <= |s|
    ensures s[i..j] <= s[i..] && s[..j] == s[..i] + s[i..j]
  {
    assert s[i..][..j - i] == s[i..j];
  }

  /** The parser's accumulators describe the parameters read. */
  ghost predicate Reading(read: seq<FieldType>, parameters: seq<DescriptorType>, slots: nat) {
    && (forall t :: t in read ==> FieldOk(t))
    && parameters == DescribeAll(read)
    && slots == Slots(read) <= MAX_SLOTS
  }

  lemma ReturnNonEmpty(r: ReturnType)
    ensures |PrintReturn(r)| > 0
  {
    if r.Value? { assert |PrintItem(r.t.item)| > 0; }
  }

  lemma ShortIsNoMethod(value: string)
    requires |value| < 3 || |value| > MAX_BYTES || value[0] != '('
    ensures NoMethod(value)
  {
    hide MethodOk, PrintReturn;
    forall m ensures !IsMethod(value, m) {
      ReturnNonEmpty(m.result);
    }
  }

  lemma NoTypeNoField(s: string)
    requires NoType(s, false)
    ensures forall t :: FieldOk(t) ==> !(PrintField(t) <= s)
  {
    forall t | FieldOk(t) ensures !(PrintField(t) <= s) {
      assert ReturnOk(Value(t)) && PrintReturn(Value(t)) == PrintField(t);
    }
  }

  lemma NoParameterNoMethod(value: string, read: seq<FieldType>, at: nat)
    requires BeginsWith(value, read) && at == 1 + |PrintFields(read)| <= |value|
    requires at == |value| || (value[at] != ')' && NoType(value[at..], false))
    ensures NoMethod(value)
  {
    hide IsMethod, FieldOk, PrintField, PrintFields, NoType;
    if at < |value| { NoTypeNoField(value[at..]); }
    forall m ensures !IsMethod(value, m) {
      if IsMethod(value, m) { NextParameter(value, read, m, at); }
    }
  }

  /** A type read at the next parameter's place is that parameter in every reading. */
  lemma ParameterRead(value: string, read: seq<FieldType>, t: FieldType, at: nat)
    requires BeginsWith(value, read) && FieldOk(t) && at == 1 + |PrintFields(read)| < |value|
    requires value[at] != ')' && PrintField(t) <= value[at..]
    ensures BeginsWith(value, read + [t])
  {
    hide IsMethod, FieldOk, PrintField, PrintFields;
    forall m | IsMethod(value, m) ensures read + [t] <= m.parameters {
      NextParameter(value, read, m, at);
      FieldUnique(t, m.parameters[|read|], value[at..]);
    }
  }

  lemma TooManySlots(value: string, read: seq<FieldType>)
    requires BeginsWith(value, read) && Slots(read) > MAX_SLOTS
    ensures NoMethod(value)
  {
    forall m ensures !IsMethod(value, m) {
      if IsMethod(value, m) { Remaining(value, read, m); }
    }
  }

  lemma NoReturnNoMethod(value: string, read: seq<FieldType>)
    requires BeginsWith(value, read) && "(" + PrintFields(read) + ")" <= value
    requires NoType(value[2 + |PrintFields(read)|..], true)
    ensures NoMethod(value)
  {
    forall m ensures !IsMethod(value, m) {
      if IsMethod(value, m) { Closing(value, read, m); }
    }
  }

  lemma Closing(value: string, read: seq<FieldType>, m: MethodType)
    requires IsMethod(value, m) && read <= m.parameters && "(" + PrintFields(read) + ")" <= value
    ensures read == m.parameters && value[2 + |PrintFields(read)|..] == PrintReturn(m.result)
  {
    var s := "(" + PrintFields(read) + ")";
    assert value[|s| - 1] == s[|s| - 1] == ')';
    NextParameter(value, read, m, 1 + |PrintFields(read)|);
  }

  lemma LongerIsNoMethod(value: string, read: seq<FieldType>, u: ReturnType)
    requires BeginsWith(value, read) && "(" + PrintFields(read) + ")" <= value
    requires ReturnOk(u) && PrintReturn(u) < value[2 + |PrintFields(read)|..]
    ensures NoMethod(value)
  {
    forall m ensures !IsMethod(value, m) {
      if IsMethod(value, m) {
        Closing(value, read, m);
        ReturnUnique(u, m.result, value[2 + |PrintFields(read)|..]);
      }
    }
  }

  lemma MethodIs(value: string, read: seq<FieldType>, u: ReturnType)
    requires BeginsWith(value, read) && "(" + PrintFields(read) + ")" <= value && |value| <= MAX_BYTES
    requires MethodOk(MethodType(read, u)) && PrintReturn(u) == value[2 + |PrintFields(read)|..]
    ensures IsMethod(value, MethodType(read, u)) && forall m :: IsMethod(value, m) ==> m == MethodType(read, u)
  {
    var s := "(" + PrintFields(read) + ")";
    assert value == s + value[|s|..];
    forall m | IsMethod(value, m) ensures m == MethodType(read, u) {
      Closing(value, read, m);
      ReturnUnique(u, m.result, value[2 + |PrintFields(read)|..]);
    }
  }

  // ---- consequences -----------------------------------------------------------------------------------------------

  function Texts(ts: seq<DescriptorType>): string {
    if ts == [] then "" else ts[0].text + Texts(ts[1..])
  }

  function Widths(ts: seq<DescriptorType>): nat {
    if ts == [] then 0 else ts[0].width + Widths(ts[1..])
  }

  /** The parts of a parsed descriptor rebuild its text, and its slots are the sum of their widths. */
  lemma PartsRebuild(m: MethodType)
    ensures var d := DescribeMethod(m);
            "(" + Texts(d.parameters) + ")" + d.result.text == PrintMethod(m) && d.slots == Widths(d.parameters)
  {
    TextsOfFields(m.parameters);
  }

  lemma {:induction false} TextsOfFields(ts: seq<FieldType>)
    ensures Texts(DescribeAll(ts)) == PrintFields(ts) && Widths(DescribeAll(ts)) == Slots(ts)
  {
    if ts != [] {
      TextsOfFields(ts[1..]);
      assert DescribeAll(ts)[1..] == DescribeAll(ts[1..]);
    }
  }

  /** Operand-stack effect of an invocation: the parameter slots and the receiver, never over the limit. */
  /** A long or a double takes two slots, everything else one. */
  lemma WidthIs(t: FieldType)
    requires FieldOk(t)
    ensures Width(t) == if PrintField(t) in ["J", "D"] then 2 else 1
  {
    DescribeTells(t);
  }

  method InvokeStackEffect(value: string, isStatic: bool) returns (r: Option<(nat, nat)>)
    ensures r.Some? <==> exists m :: IsMethod(value, m) && Slots(m.parameters) + (if isStatic then 0 else 1) <= MAX_SLOTS
    ensures r.Some? ==> r.value.0 <= 255
    ensures forall m :: IsMethod(value, m) && r.Some? ==>
              && r.value.0 == Slots(m.parameters) + (if isStatic then 0 else 1)
              && r.value.1 == if m.result.Void? then 0 else Width(m.result.t)
  {
    hide IsMethod;
    var parsed := ParseMethodDescriptor(value);
    if parsed.None? { return None; }
    ghost var w :| IsMethod(value, w);
    var pop := parsed.value.slots;
    if !isStatic {
      pop := pop + 1;
      if pop > MAX_SLOTS { return None; }
    }
    assert pop <= MAX_SLOTS by { SlotsBounded(value, w); }
    return Some((pop, parsed.value.result.width));
  }

  lemma SlotsBounded(value: string, m: MethodType)
    requires IsMethod(value, m)
    ensures Slots(m.parameters) <= MAX_SLOTS
  {
  }
}
