/**
 The walk that refuses a configuration in which any object names a key twice
 (`walkForDuplicateKeys`, shellsight/internal/agentcfg/agentcfg.go).

 The JSON decoder is the stream of its tokens. The walk is stated for every stream, and what it promises for
 the stream of a document.
 */
module DuplicateKeys {
  import opened Common

  datatype Json =
    | Scalar(literal: string)
    | Text(text: string)
    | List(items: seq<Json>)
    | Object(fields: seq<Field>)

  datatype Field = Field(key: string, value: Json)

  datatype Token = OpenObject | CloseObject | OpenList | CloseList | TextToken(text: string) | ScalarToken(literal: string)

  datatype Fault = OutOfTokens | KeyNotText | Repeated(key: string)

  /** The stream left after a successful walk, or why it failed. */
  type Walked = Result<seq<Token>, Fault>

  // ---- documents ------------------------------------------------------------------------------------------------

  function Tokens(v: Json): seq<Token> {
    match v
    case Scalar(literal) => [ScalarToken(literal)]
    case Text(text) => [TextToken(text)]
    case List(items) => [OpenList] + ItemTokens(items) + [CloseList]
    case Object(fields) => [OpenObject] + FieldTokens(fields) + [CloseObject]
  }

  function ItemTokens(items: seq<Json>): seq<Token> {
    if items == [] then [] else Tokens(items[0]) + ItemTokens(items[1..])
  }

  function FieldTokens(fields: seq<Field>): seq<Token> {
    if fields == [] then [] else [TextToken(fields[0].key)] + Tokens(fields[0].value) + FieldTokens(fields[1..])
  }

  /** No object at any depth names a key twice. */
  predicate NoRepeats(v: Json) {
    match v
    case Scalar(_) => true
    case Text(_) => true
    case List(items) => forall i :: 0 <= i < |items| ==> NoRepeats(items[i])
    case Object(fields) =>
      && (forall i, j :: 0 <= i < j < |fields| ==> fields[i].key != fields[j].key)
      && (forall i :: 0 <= i < |fields| ==> NoRepeats(fields[i].value))
  }

  // ---- the walk over a stream ------------------------------------------------------------------------------------

  /** More values before the closing delimiter. */
  predicate More(ts: seq<Token>) { ts != [] && !ts[0].CloseObject? && !ts[0].CloseList? }

  function WalkValue(ts: seq<Token>): (w: Walked)
    ensures w.Ok? ==> |w.value| < |ts|
    decreases |ts|, 0
  {
    if ts == [] then Err(OutOfTokens)
    else
      match ts[0]
      case TextToken(_) => Ok(ts[1..])
      case ScalarToken(_) => Ok(ts[1..])
      case OpenObject => WalkFields(ts[1..], {})
      case OpenList => WalkItems(ts[1..])
      case CloseObject => Skip(ts[1..])
      case CloseList => Skip(ts[1..])
  }

  /** Any one token, taken as the closing delimiter. */
  function Skip(ts: seq<Token>): (w: Walked)
    ensures w.Ok? ==> |w.value| < |ts|
  {
    if ts == [] then Err(OutOfTokens) else Ok(ts[1..])
  }

  function WalkFields(ts: seq<Token>, seen: set<string>): (w: Walked)
    ensures w.Ok? ==> |w.value| < |ts|
    decreases |ts|, 1
  {
    if !More(ts) then Skip(ts)
    else if !ts[0].TextToken? then Err(KeyNotText)
    else if ts[0].text in seen then Err(Repeated(ts[0].text))
    else
      var w := WalkValue(ts[1..]);
      if w.Err? then w else WalkFields(w.value, seen + {ts[0].text})
  }

  function WalkItems(ts: seq<Token>): (w: Walked)
    ensures w.Ok? ==> |w.value| < |ts|
    decreases |ts|, 1
  {
    if !More(ts) then Skip(ts)
    else
      var w := WalkValue(ts);
      if w.Err? then w else WalkItems(w.value)
  }

  class Decoder {
    var rest: seq<Token>

    constructor (ts: seq<Token>)
      ensures rest == ts
    {
      rest := ts;
    }

    method Next() returns (t: Option<Token>)
      modifies this
      ensures old(rest) == [] ==> t == None && rest == []
      ensures old(rest) != [] ==> t == Some(old(rest)[0]) && rest == old(rest)[1..]
    {
      if rest == [] { return None; }
      t := Some(rest[0]);
      rest := rest[1..];
    }

    method WalkForDuplicateKeys() returns (fault: Option<Fault>)
      modifies this
      ensures match WalkValue(old(rest))
              case Ok(left) => fault == None && rest == left
              case Err(why) => fault == Some(why)
      ensures |rest| <= |old(rest)|
      decreases |rest|
    {
      var token := Next();
      if token.None? { return Some(OutOfTokens); }
      match token.value {
        case TextToken(_) => return None;
        case ScalarToken(_) => return None;
        case OpenObject =>
          var seen: set<string> := {};
          while More(rest)
            invariant |rest| < |old(rest)|
            invariant WalkFields(rest, seen) == WalkValue(old(rest))
            decreases |rest|
          {
            var key := Next();
            if !key.value.TextToken? { return Some(KeyNotText); }
            if key.value.text in seen { return Some(Repeated(key.value.text)); }
            seen := seen + {key.value.text};
            var inner := WalkForDuplicateKeys();
            if inner.Some? { return inner; }
          }
        case OpenList =>
          while More(rest)
            invariant |rest| < |old(rest)|
            invariant WalkItems(rest) == WalkValue(old(rest))
            decreases |rest|
          {
            var inner := WalkForDuplicateKeys();
            if inner.Some? { return inner; }
          }
        case CloseObject =>
        case CloseList =>
      }
      var close := Next();
      if close.None? { return Some(OutOfTokens); }
      return None;
    }
  }

  /** A document is refused, as repeating a key, exactly when some object in it does; otherwise the walk consumes
      exactly the document and leaves what follows. */
  lemma {:induction false} WalkIsExact(v: Json, tail: seq<Token>)
    ensures NoRepeats(v) ==> WalkValue(Tokens(v) + tail) == Ok(tail)
    ensures !NoRepeats(v) ==> WalkValue(Tokens(v) + tail).Err? && WalkValue(Tokens(v) + tail).error.Repeated?
    decreases v, 0
  {
    var ts := Tokens(v) + tail;
    match v {
      case Scalar(_) => assert ts[1..] == tail;
      case Text(_) => assert ts[1..] == tail;
      case List(items) =>
        assert ts[1..] == ItemTokens(items) + ([CloseList] + tail);
        ItemsAreExact(items, tail);
      case Object(fields) =>
        assert ts[1..] == FieldTokens(fields) + ([CloseObject] + tail);
        FieldsAreExact(fields, {}, tail);
    }
  }

  lemma TokensStart(v: Json, tail: seq<Token>)
    ensures More(Tokens(v) + tail)
  {}

  predicate ItemsClean(items: seq<Json>) { forall i :: 0 <= i < |items| ==> NoRepeats(items[i]) }

  lemma {:induction false} ItemsAreExact(items: seq<Json>, tail: seq<Token>)
    ensures var w := WalkItems(ItemTokens(items) + ([CloseList] + tail));
            (ItemsClean(items) ==> w == Ok(tail)) && (!ItemsClean(items) ==> w.Err? && w.error.Repeated?)
    decreases items
  {
    var ts := ItemTokens(items) + ([CloseList] + tail);
    if items == [] {
      assert ts == [CloseList] + tail && ts[1..] == tail;
    } else {
      var rest := ItemTokens(items[1..]) + ([CloseList] + tail);
      assert ts == Tokens(items[0]) + rest;
      TokensStart(items[0], rest);
      WalkIsExact(items[0], rest);
      ItemsAreExact(items[1..], tail);
      ItemsSplit(items);
    }
  }

  lemma ItemsSplit(items: seq<Json>)
    requires items != []
    ensures ItemsClean(items) <==> NoRepeats(items[0]) && ItemsClean(items[1..])
  {
    assert forall i :: 0 < i < |items| ==> items[i] == items[1..][i - 1];
    if NoRepeats(items[0]) && ItemsClean(items[1..]) {
      forall i | 0 <= i < |items| ensures NoRepeats(items[i]) {
        if i > 0 { assert NoRepeats(items[1..][i - 1]); }
      }
    }
  }

  predicate FieldsClean(fields: seq<Field>, seen: set<string>) {
    && (forall i, j :: 0 <= i < j < |fields| ==> fields[i].key != fields[j].key)
    && (forall i :: 0 <= i < |fields| ==> NoRepeats(fields[i].value) && fields[i].key !in seen)
  }

  lemma {:induction false} FieldsAreExact(fields: seq<Field>, seen: set<string>, tail: seq<Token>)
    ensures var w := WalkFields(FieldTokens(fields) + ([CloseObject] + tail), seen);
            (FieldsClean(fields, seen) ==> w == Ok(tail)) && (!FieldsClean(fields, seen) ==> w.Err? && w.error.Repeated?)
    decreases fields
  {
    var ts := FieldTokens(fields) + ([CloseObject] + tail);
    if fields == [] {
      assert ts == [CloseObject] + tail && ts[1..] == tail;
    } else {
      var rest := FieldTokens(fields[1..]) + ([CloseObject] + tail);
      assert ts == [TextToken(fields[0].key)] + (Tokens(fields[0].value) + rest);
      assert ts[1..] == Tokens(fields[0].value) + rest;
      WalkIsExact(fields[0].value, rest);
      FieldsAreExact(fields[1..], seen + {fields[0].key}, tail);
      FieldsSplit(fields, seen);
    }
  }

  lemma FieldsSplit(fields: seq<Field>, seen: set<string>)
    requires fields != []
    ensures FieldsClean(fields, seen)
            <==> fields[0].key !in seen && NoRepeats(fields[0].value) && FieldsClean(fields[1..], seen + {fields[0].key})
  {
    var rest := fields[1..];
    assert forall i :: 0 < i < |fields| ==> fields[i] == rest[i - 1];
    if fields[0].key !in seen && NoRepeats(fields[0].value) && FieldsClean(rest, seen + {fields[0].key}) {
      forall i, j | 0 <= i < j < |fields| ensures fields[i].key != fields[j].key {
        assert fields[j] == rest[j - 1];
        if i > 0 { assert fields[i] == rest[i - 1]; }
      }
    }
  }

  /** Whatever it is nested in and wherever it stands, one repeated key is enough to refuse the document. */
  method RejectDuplicateKeys(v: Json) returns (rejected: bool)
    ensures rejected <==> !NoRepeats(v)
  {
    var decoder := new Decoder(Tokens(v));
    WalkIsExact(v, []);
    assert Tokens(v) + [] == Tokens(v);
    var fault := decoder.WalkForDuplicateKeys();
    rejected := fault.Some?;
  }
}
