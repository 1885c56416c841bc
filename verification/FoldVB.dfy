/**
 Constant folding of VBScript string expressions (shellsight/internal/asptaint/progid.go).

 Text is a sequence of Unicode characters, which is what valid UTF-8 source decodes to; every delimiter
 the folder looks at is one ASCII byte. The three patterns of the folder are written out as functions.

 The grammar of what can be folded is a syntax tree with a printer and a value; the folder knows nothing of it.
 */
module FoldVB {
  import opened Common

  // ---- splitting at top level ------------------------------------------------------------------------------

  /** Where a scan stands: how many parentheses are open, and whether inside a string. A doubled quote leaves
      and re-enters the string, which comes to the same. */
  datatype Place = Broken | At(depth: nat, quoted: bool)

  function Step(p: Place, c: char): Place {
    if p.Broken? then Broken
    else if c == '"' then At(p.depth, !p.quoted)
    else if p.quoted then p
    else if c == '(' then At(p.depth + 1, false)
    else if c == ')' then if p.depth == 0 then Broken else At(p.depth - 1, false)
    else p
  }

  function Scan(p: Place, s: string): Place {
    if s == "" then p else Step(Scan(p, s[..|s| - 1]), s[|s| - 1])
  }

  const Top := At(0, false)

  /** The pieces between the separators that stand outside strings and parentheses. */
  function Pieces(s: string, sep: char): (ps: seq<string>)
    ensures ps != [] && forall p :: p in ps ==> |p| <= |s|
  {
    if s == "" then [""]
    else
      var before := s[..|s| - 1];
      var c := s[|s| - 1];
      var ps := Pieces(before, sep);
      if Cuts(c, sep) && Scan(Top, before) == Top then ps + [""] else Grown(ps, c)
  }

  /** A quote or a parenthesis never separates, whatever the separator. */
  predicate Cuts(c: char, sep: char) { c == sep && IsSeparator(c) }

  function Grown(ps: seq<string>, c: char): (r: seq<string>)
    requires ps != []
  {
    ps[..|ps| - 1] + [ps[|ps| - 1] + [c]]
  }

  lemma ScanNext(s: string, i: nat)
    requires i < |s|
    ensures Scan(Top, s[..i + 1]) == Step(Scan(Top, s[..i]), s[i])
  {
    assert s[..i + 1][..i] == s[..i];
  }

  lemma PiecesNext(s: string, sep: char, i: nat)
    requires i < |s|
    ensures var ps := Pieces(s[..i], sep);
            Pieces(s[..i + 1], sep) == if Cuts(s[i], sep) && Scan(Top, s[..i]) == Top then ps + [""] else Grown(ps, s[i])
  {
    assert s[..i + 1][..i] == s[..i];
  }

  lemma GrownLast(init: seq<string>, last: string, c: char)
    ensures Grown(init + [last], c) == init + [last + [c]]
  {}

  function Split(s: string, sep: char): Option<seq<string>> {
    if Scan(Top, s) == Top then Some(Pieces(s, sep)) else None
  }

  predicate IsSeparator(sep: char) { sep != '"' && sep != '(' && sep != ')' }

  /** The splitter has read `s[..i]` and holds these pieces, the last one open. */
  ghost predicate Reads(s: string, sep: char, i: nat, out: seq<string>, cur: string, depth: nat, inStr: bool) {
    i <= |s| && Scan(Top, s[..i]) == At(depth, inStr) && Pieces(s[..i], sep) == out + [cur]
  }

  lemma Kept(s: string, sep: char, i: nat, out: seq<string>, cur: string, depth: nat, inStr: bool, next: Place)
    requires Reads(s, sep, i, out, cur, depth, inStr) && i < |s| && (Cuts(s[i], sep) ==> depth > 0 || inStr)
    requires Step(At(depth, inStr), s[i]) == next && next.At?
    ensures Reads(s, sep, i + 1, out, cur + [s[i]], next.depth, next.quoted)
  {
    ScanNext(s, i);
    PiecesNext(s, sep, i);
    GrownLast(out, cur, s[i]);
  }

  lemma Cut(s: string, sep: char, i: nat, out: seq<string>, cur: string)
    requires Reads(s, sep, i, out, cur, 0, false) && i < |s| && Cuts(s[i], sep)
    ensures Reads(s, sep, i + 1, out + [cur], "", 0, false)
  {
    ScanNext(s, i);
    PiecesNext(s, sep, i);
  }

  lemma Closes(s: string, sep: char, i: nat, out: seq<string>, cur: string)
    requires Reads(s, sep, i, out, cur, 0, false) && i < |s| && s[i] == ')'
    ensures Split(s, sep) == None
  {
    ScanNext(s, i);
    BrokenStays(s, i + 1);
  }

  lemma Ends(s: string, sep: char, out: seq<string>, cur: string, depth: nat, inStr: bool)
    requires Reads(s, sep, |s|, out, cur, depth, inStr)
    ensures Split(s, sep) == if inStr || depth != 0 then None else Some(out + [cur])
  {
    assert s[..|s|] == s;
  }

  method SplitTopLevel(s: string, sep: char) returns (r: Option<seq<string>>)
    ensures r == Split(s, sep)
  {
    hide Reads, Split;
    var out: seq<string> := [];
    var cur := "";
    var depth := 0;
    var inStr := false;
    var i := 0;
    Starts(s, sep);
    while i < |s|
      invariant 0 <= i <= |s| && depth >= 0
      invariant Reads(s, sep, i, out, cur, depth, inStr)
    {
      var c := s[i];
      if inStr {
        Kept(s, sep, i, out, cur, depth, true, At(depth, c != '"'));
        cur := cur + [c];
        if c == '"' {
          if i + 1 < |s| && s[i + 1] == '"' {
            Kept(s, sep, i + 1, out, cur, depth, false, At(depth, true));
            cur := cur + ['"'];
            i := i + 1;
          } else {
            inStr := false;
          }
        }
      } else if c == '"' {
        Kept(s, sep, i, out, cur, depth, false, At(depth, true));
        inStr := true;
        cur := cur + [c];
      } else if c == '(' {
        Kept(s, sep, i, out, cur, depth, false, At(depth + 1, false));
        depth := depth + 1;
        cur := cur + [c];
      } else if c == ')' {
        depth := depth - 1;
        if depth < 0 {
          Closes(s, sep, i, out, cur);
          return None;
        }
        Kept(s, sep, i, out, cur, depth + 1, false, At(depth, false));
        cur := cur + [c];
      } else if c == sep && depth == 0 {
        Cut(s, sep, i, out, cur);
        out := out + [cur];
        cur := "";
      } else {
        Kept(s, sep, i, out, cur, depth, false, At(depth, false));
        cur := cur + [c];
      }
      i := i + 1;
    }
    Ends(s, sep, out, cur, depth, inStr);
    if inStr || depth != 0 { return None; }
    out := out + [cur];
    r := Some(out);
  }

  lemma Starts(s: string, sep: char)
    ensures Reads(s, sep, 0, [], "", 0, false)
  {
    PiecesStart(s, sep);
    assert [] + [""] == [""];
  }

  lemma PiecesStart(s: string, sep: char)
    ensures Scan(Top, s[..0]) == Top && Pieces(s[..0], sep) == [""]
    ensures Scan(Top, "") == Top && Pieces("", sep) == [""]
  {}

  lemma {:induction false} BrokenStays(s: string, n: nat)
    requires n <= |s| && Scan(Top, s[..n]) == Broken
    ensures Scan(Top, s) == Broken
    decreases |s|
  {
    if n == |s| {
      assert s[..n] == s;
    } else {
      assert s[..|s| - 1][..n] == s[..n];
      BrokenStays(s[..|s| - 1], n);
    }
  }

  function Join(ps: seq<string>, sep: char): string
    requires ps != []
  {
    if |ps| == 1 then ps[0] else Join(ps[..|ps| - 1], sep) + [sep] + ps[|ps| - 1]
  }

  /** No separator of `s` stands outside strings and parentheses. */
  ghost predicate NoTop(s: string, sep: char) {
    forall k :: 0 <= k < |s| && s[k] == sep ==> Scan(Top, s[..k]) != Top
  }

  /** A piece that can stand between separators. */
  ghost predicate IsPiece(s: string, sep: char) {
    Scan(Top, s) == Top && NoTop(s, sep)
  }

  lemma {:induction false} ScanConcat(p: Place, a: string, b: string)
    ensures Scan(p, a + b) == Scan(Scan(p, a), b)
  {
    if b == "" {
      assert a + b == a;
    } else {
      assert (a + b)[..|a + b| - 1] == a + b[..|b| - 1];
      ScanConcat(p, a, b[..|b| - 1]);
    }
  }

  lemma ScanGrown(p: Place, s: string, c: char)
    ensures Scan(p, s + [c]) == Step(Scan(p, s), c)
  {
    assert (s + [c])[..|s|] == s;
  }

  lemma JoinSnoc(ps: seq<string>, sep: char, p: string)
    requires ps != []
    ensures Join(ps + [p], sep) == Join(ps, sep) + [sep] + p
  {
    assert (ps + [p])[..|ps|] == ps;
  }

  lemma JoinGrown(ps: seq<string>, sep: char, c: char)
    requires ps != []
    ensures Join(Grown(ps, c), sep) == Join(ps, sep) + [c]
  {
    var init, last := ps[..|ps| - 1], ps[|ps| - 1];
    assert init + [last] == ps;
    if init != [] {
      JoinSnoc(init, sep, last);
      JoinSnoc(init, sep, last + [c]);
    }
  }

  lemma NoTopGrown(s: string, sep: char, c: char)
    requires NoTop(s, sep) && (c == sep ==> Scan(Top, s) != Top)
    ensures NoTop(s + [c], sep)
  {
    hide Scan;
    var grown := s + [c];
    forall k | 0 <= k < |grown| && grown[k] == sep ensures Scan(Top, grown[..k]) != Top {
      assert grown[..k] == s[..k];
      if k == |s| { assert s[..k] == s; }
    }
  }

  lemma NoTopPrefix(s: string, sep: char, n: nat)
    requires NoTop(s, sep) && n <= |s|
    ensures NoTop(s[..n], sep)
  {
    hide Scan;
    forall k | 0 <= k < n && s[..n][k] == sep ensures Scan(Top, s[..n][..k]) != Top {
      assert s[..n][..k] == s[..k];
    }
  }

  /** What is known of the pieces of `s`: they rejoin to it, none holds a top-level separator, all but the last
      are whole, and the last stands where the whole text stands. */
  ghost predicate Sound(ps: seq<string>, s: string, sep: char)
    requires ps != []
  {
    && Join(ps, sep) == s
    && (forall i :: 0 <= i < |ps| ==> NoTop(ps[i], sep))
    && (forall i :: 0 <= i < |ps| - 1 ==> Scan(Top, ps[i]) == Top)
    && Scan(Top, ps[|ps| - 1]) == Scan(Top, s)
  }

  /** The pieces rejoin to the text, and no separator stands at top level inside one. */
  lemma {:induction false} PiecesSound(s: string, sep: char)
    requires IsSeparator(sep) && Scan(Top, s) != Broken
    ensures Sound(Pieces(s, sep), s, sep)
  {
    if s != "" {
      var before, c := s[..|s| - 1], s[|s| - 1];
      PiecesSound(before, sep);
      assert before + [c] == s;
      if c == sep && Scan(Top, before) == Top {
        CutSound(Pieces(before, sep), before, sep);
      } else {
        GrownSound(Pieces(before, sep), before, sep, c);
      }
    }
  }

  lemma CutSound(ps: seq<string>, s: string, sep: char)
    requires IsSeparator(sep) && ps != [] && Sound(ps, s, sep) && Scan(Top, s) == Top
    ensures Sound(ps + [""], s + [sep], sep)
  {
    hide Join;
    JoinSnoc(ps, sep, "");
    ScanGrown(Top, s, sep);
  }

  lemma GrownSound(ps: seq<string>, s: string, sep: char, c: char)
    requires ps != [] && Sound(ps, s, sep) && (c == sep ==> Scan(Top, s) != Top)
    ensures Sound(Grown(ps, c), s + [c], sep)
  {
    hide Join, Scan, NoTop;
    JoinGrown(ps, sep, c);
    ScanGrown(Top, s, c);
    ScanGrown(Top, ps[|ps| - 1], c);
    NoTopGrown(ps[|ps| - 1], sep, c);
  }

  /** Splitting undoes joining: pieces without a top-level separator come back as they were. */
  lemma {:induction false} SplitJoin(ps: seq<string>, sep: char)
    requires IsSeparator(sep) && ps != [] && forall i :: 0 <= i < |ps| ==> IsPiece(ps[i], sep)
    ensures Split(Join(ps, sep), sep) == Some(ps)
  {
    hide Join, Scan, Pieces, NoTop;
    var init, last := ps[..|ps| - 1], ps[|ps| - 1];
    assert init + [last] == ps;
    if init == [] {
      PiecesStart("", sep);
      PieceAppends("", [], last, sep);
      assert [] + [""] == [""] && "" + last == last && [last] == ps;
      JoinOne(last, sep);
    } else {
      SplitJoin(init, sep);
      var s := Join(init, sep);
      CutPieces(s, sep);
      PieceAppends(s + [sep], init, last, sep);
      JoinSnoc(init, sep, last);
    }
  }

  lemma CutPieces(s: string, sep: char)
    requires IsSeparator(sep) && Scan(Top, s) == Top
    ensures Pieces(s + [sep], sep) == Pieces(s, sep) + [""] && Scan(Top, s + [sep]) == Top
  {
    assert (s + [sep])[..|s|] == s;
  }

  lemma {:induction false} PieceAppends(s: string, init: seq<string>, piece: string, sep: char)
    requires Scan(Top, s) == Top && Pieces(s, sep) == init + [""] && NoTop(piece, sep)
    ensures Scan(Top, s + piece) == Scan(Top, piece) && Pieces(s + piece, sep) == init + [piece]
  {
    hide Scan, Pieces, Grown, NoTop;
    ScanConcat(Top, s, piece);
    if piece == "" {
      assert s + piece == s;
    } else {
      var n := |piece| - 1;
      var shorter, c := piece[..n], piece[n];
      NoTopPrefix(piece, sep, n);
      PieceAppends(s, init, shorter, sep);
      var whole := s + piece;
      assert whole[..|s| + n] == s + shorter && whole[|s| + n] == c;
      assert whole[..|s| + n + 1] == whole && shorter + [c] == piece;
      PiecesNext(whole, sep, |s| + n);
      GrownLast(init, shorter, c);
      NotCut(piece, sep);
    }
  }

  lemma NotCut(piece: string, sep: char)
    requires piece != "" && NoTop(piece, sep)
    ensures piece[|piece| - 1] == sep ==> Scan(Top, piece[..|piece| - 1]) != Top
  {}

  // ---- string literals -----------------------------------------------------------------------------------------

  function Doubled(s: string): string {
    if s == "" then "" else (if s[0] == '"' then "\"\"" else [s[0]]) + Doubled(s[1..])
  }

  function Quoted(s: string): string { "\"" + Doubled(s) + "\"" }

  /** Read one literal: doubled quotes stand for one, and nothing may follow the closing quote. */
  method UnquoteVB(t: string) returns (r: Option<string>)
    ensures r == Unquoted(t)
  {
    if |t| < 2 || t[0] != '"' { return None; }
    var b := "";
    var i := 1;
    PrefixedNothing(Body(t[1..]));
    while i < |t|
      invariant 1 <= i <= |t|
      invariant Unquoted(t) == Prefixed(b, Body(t[i..]))
    {
      assert t[i..][0] == t[i] && t[i..][1..] == t[i + 1..];
      assert i + 1 < |t| ==> t[i..][1] == t[i + 1] && t[i..][2..] == t[i + 2..];
      if t[i] != '"' {
        PrefixedAgain(b, [t[i]], Body(t[i + 1..]));
        b := b + [t[i]];
        i := i + 1;
        continue;
      }
      if i + 1 < |t| && t[i + 1] == '"' {
        PrefixedAgain(b, "\"", Body(t[i + 2..]));
        b := b + ['"'];
        i := i + 2;
        continue;
      }
      assert b + "" == b;
      return if i == |t| - 1 then Some(b) else None;
    }
    return None;
  }

  lemma PrefixedNothing(r: Option<string>)
    ensures Prefixed("", r) == r
  {
    if r.Some? { assert "" + r.value == r.value; }
  }

  lemma PrefixedAgain(a: string, b: string, r: Option<string>)
    ensures Prefixed(a, Prefixed(b, r)) == Prefixed(a + b, r)
  {
    if r.Some? { assert a + (b + r.value) == (a + b) + r.value; }
  }

  function Prefixed(a: string, r: Option<string>): Option<string> {
    match r case None => None case Some(b) => Some(a + b)
  }

  /** What follows the opening quote, read up to the closing one. */
  function Body(t: string): Option<string> {
    if t == "" then None
    else if t[0] != '"' then Prefixed([t[0]], Body(t[1..]))
    else if |t| >= 2 && t[1] == '"' then Prefixed("\"", Body(t[2..]))
    else if |t| == 1 then Some("") else None
  }

  function Unquoted(t: string): Option<string> {
    if |t| < 2 || t[0] != '"' then None else Body(t[1..])
  }

  /** Reading a literal is the exact inverse of quoting: it succeeds on quoted texts and nothing else. */
  lemma UnquoteInverse(t: string, s: string)
    ensures Unquoted(t) == Some(s) <==> t == Quoted(s)
  {
    if t == Quoted(s) {
      assert t[1..] == Doubled(s) + "\"";
      BodyOfDoubled(s);
    } else if Unquoted(t) == Some(s) {
      assert [t[0]] + t[1..] == t;
      BodyIsDoubled(t[1..], s);
    }
  }

  lemma {:induction false} BodyOfDoubled(s: string)
    ensures Body(Doubled(s) + "\"") == Some(s)
  {
    if s != "" {
      var head := if s[0] == '"' then "\"\"" else [s[0]];
      var rest := Doubled(s[1..]) + "\"";
      var t := Doubled(s) + "\"";
      assert t == head + rest;
      assert t[|head|..] == rest && t[0] == head[0] && (s[0] == '"' ==> t[1] == '"');
      BodyOfDoubled(s[1..]);
      assert [s[0]] + s[1..] == s;
    }
  }

  lemma {:induction false} BodyIsDoubled(t: string, s: string)
    requires Body(t) == Some(s)
    ensures t == Doubled(s) + "\""
    decreases |t|
  {
    if t[0] != '"' {
      var rest := Body(t[1..]).value;
      BodyIsDoubled(t[1..], rest);
      assert s == [t[0]] + rest && s[1..] == rest;
    } else if |t| >= 2 && t[1] == '"' {
      var rest := Body(t[2..]).value;
      BodyIsDoubled(t[2..], rest);
      assert s == "\"" + rest && s[1..] == rest;
      assert t == "\"\"" + t[2..];
    }
  }

  // ---- the patterns --------------------------------------------------------------------------------------------

  /** White space of the pattern language. */
  predicate IsBlank(c: char) { c in " \t\n\r" || c as int == 12 }

  /** White space that trimming removes: blanks, vertical tab and the Unicode spaces. */
  predicate IsSpace(c: char) {
    IsBlank(c) || c as int in {11, 0x85, 0xA0, 0x1680, 0x2028, 0x2029, 0x202F, 0x205F, 0x3000}
    || 0x2000 <= c as int <= 0x200A
  }

  function TrimLeft(s: string, space: char -> bool): (r: string)
    ensures |r| <= |s|
  {
    if s != "" && space(s[0]) then TrimLeft(s[1..], space) else s
  }

  function TrimRight(s: string, space: char -> bool): (r: string)
    ensures |r| <= |s|
  {
    if s != "" && space(s[|s| - 1]) then TrimRight(s[..|s| - 1], space) else s
  }

  function Trim(s: string): (r: string)
    ensures |r| <= |s|
  {
    TrimRight(TrimLeft(s, IsSpace), IsSpace)
  }

  /** Case-insensitive match of one letter; the long s folds to s. */
  predicate FoldsTo(c: char, lower: char)
    requires 'a' <= lower <= 'z'
  {
    c == lower || c as int == lower as int - 32 || (lower == 's' && c as int == 0x17F)
  }

  predicate IsWord(s: string) { forall k :: 0 <= k < |s| ==> 'a' <= s[k] <= 'z' }

  predicate StartsWithWord(t: string, word: string)
    requires IsWord(word)
  {
    |t| >= |word| && forall k :: 0 <= k < |word| ==> FoldsTo(t[k], word[k])
  }

  /** The text between the outer parentheses of `t`, which must be all of `t` but leading blanks. */
  function Parenthesised(t: string): (r: Option<string>)
    ensures r.Some? ==> |r.value| < |t|
  {
    var u := TrimLeft(t, IsBlank);
    if |u| >= 2 && u[0] == '(' && u[|u| - 1] == ')' then Some(u[1..|u| - 1]) else None
  }

  function LineLength(s: string): (n: nat)
    ensures n <= |s|
  {
    if s == "" || s[0] == '\n' then 0 else 1 + LineLength(s[1..])
  }

  /** The argument text of a call `word(...)`. A line break may only be followed by blanks. */
  function CallBody(t: string, word: string): (r: Option<string>)
    requires IsWord(word)
    ensures r.Some? ==> |r.value| < |t|
  {
    if !StartsWithWord(t, word) then None
    else
      var inner := Parenthesised(t[|word|..]);
      if inner.None? then None
      else
        var body := TrimLeft(inner.value, IsBlank);
        var n := LineLength(body);
        if body == "" || TrimLeft(body[n..], IsBlank) != "" then None else Some(body[..n])
  }

  predicate IsDigit(c: char) { '0' <= c <= '9' }

  predicate IsHexDigit(c: char) { IsDigit(c) || 'a' <= c <= 'f' || 'A' <= c <= 'F' }

  predicate IsDecimal(s: string) { s != "" && forall c :: c in s ==> IsDigit(c) }

  predicate IsHex(s: string) {
    |s| > 2 && s[0] == '&' && (s[1] == 'H' || s[1] == 'h') && forall k :: 2 <= k < |s| ==> IsHexDigit(s[k])
  }

  function DigitValue(c: char): nat
    requires IsHexDigit(c)
  {
    if IsDigit(c) then (c - '0') as int else if 'a' <= c <= 'f' then (c - 'a') as int + 10 else (c - 'A') as int + 10
  }

  function NumberIn(base: nat, s: string): nat
    requires forall c :: c in s ==> IsHexDigit(c)
  {
    if s == "" then 0 else NumberIn(base, s[..|s| - 1]) * base + DigitValue(s[|s| - 1])
  }

  function ParseVBInt(s: string): nat
    requires IsDecimal(s) || IsHex(s)
  {
    if IsHex(s) then NumberIn(16, s[2..]) else NumberIn(10, s)
  }

  /** The number of a call to Chr, ChrW or Chr$. */
  function ChrArgument(t: string): (r: Option<string>)
    ensures r.Some? ==> IsDecimal(r.value) || IsHex(r.value)
  {
    if !StartsWithWord(t, "chr") then None
    else
      var u := t[3..];
      var v := if u != "" && (FoldsTo(u[0], 'w') || u[0] == '$') then u[1..] else u;
      var inner := Parenthesised(v);
      if inner.None? then None
      else
        var n := TrimRight(TrimLeft(inner.value, IsBlank), IsBlank);
        if IsDecimal(n) || IsHex(n) then Some(n) else None
  }

  /** The character of a code point; surrogates have none and become the replacement character. */
  function Rune(n: nat): char
    requires n <= 0x10FFFF
  {
    if 0xD800 <= n < 0xE000 then 0xFFFD as char else n as char
  }

  function Reversed(s: string): string {
    if s == "" then "" else Reversed(s[1..]) + [s[0]]
  }

  /** Every occurrence of `find`, left to right without overlap, replaced. */
  function ReplaceAll(s: string, find: string, with: string): string
    requires find != ""
    decreases |s|
  {
    if s == "" then ""
    else if find <= s then with + ReplaceAll(s[|find|..], find, with)
    else [s[0]] + ReplaceAll(s[1..], find, with)
  }

  // ---- the folder ------------------------------------------------------------------------------------------------

  function FoldVB(expr: string): Option<string>
    decreases |expr|, 2
  {
    var parts := Split(expr, '&');
    if parts.None? then None else FoldParts(parts.value, |expr|)
  }

  function FoldParts(parts: seq<string>, ghost n: nat): Option<string>
    requires forall p :: p in parts ==> |p| <= n
    decreases n, 1, |parts|
  {
    if parts == [] then Some("")
    else
      var first := FoldOne(Trim(parts[0]));
      if first.None? then None else Prefixed(first.value, FoldParts(parts[1..], n))
  }

  function FoldOne(t: string): Option<string>
    decreases |t|, 0
  {
    if t == "" then None
    else if t[0] == '"' then Unquoted(t)
    else if ChrArgument(t).Some? then
      var n := ParseVBInt(ChrArgument(t).value);
      if n > 0x10FFFF then None else Some([Rune(n)])
    else if CallBody(t, "strreverse").Some? then
      var inner := FoldVB(CallBody(t, "strreverse").value);
      if inner.None? then None else Some(Reversed(inner.value))
    else if CallBody(t, "replace").Some? then
      var args := Split(CallBody(t, "replace").value, ',');
      if args.None? || |args.value| < 3 then None
      else
        assert forall a :: a in args.value ==> |a| < |t|;
        assert args.value[0] in args.value && args.value[1] in args.value && args.value[2] in args.value;
        var src := FoldVB(args.value[0]);
        var find := FoldVB(args.value[1]);
        var with := FoldVB(args.value[2]);
        if src.None? || find.None? || with.None? || find.value == "" then None
        else Some(ReplaceAll(src.value, find.value, with.value))
    else None
  }

  // ---- constant expressions and their text -------------------------------------------------------------------

  /** A constant expression as it is written: operands joined by `&`, white space anywhere a token ends, call
      names in any letter case. */
  datatype Expr = Last(op: Operand) | More(op: Operand, rest: Expr)
  datatype Operand = Operand(before: string, atom: Atom, after: string)
  datatype Atom =
    | Lit(text: string)
    | Code(word: string, suffix: string, pad: string, before: string, digits: string, after: string)
    | Reverse(word: string, pad: string, arg: Expr)
    | Replace(word: string, pad: string, src: Expr, find: Expr, with: Expr)

  function Print(e: Expr): string {
    match e
    case Last(op) => PrintOperand(op)
    case More(op, rest) => PrintOperand(op) + "&" + Print(rest)
  }

  function PrintOperand(op: Operand): string { op.before + PrintAtom(op.atom) + op.after }

  function PrintAtom(a: Atom): string {
    match a
    case Lit(text) => Quoted(text)
    case Code(word, suffix, pad, before, digits, after) => Call(word + suffix, pad, before + digits + after)
    case Reverse(word, pad, arg) => Call(word, pad, Print(arg))
    case Replace(word, pad, src, find, with) => Call(word, pad, Print(src) + "," + (Print(find) + "," + Print(with)))
  }

  function Call(word: string, pad: string, body: string): string { word + pad + ("(" + body + ")") }

  /** What an expression means; None where VBScript has no constant to give. */
  function Value(e: Expr): Option<string> {
    match e
    case Last(op) => AtomValue(op.atom)
    case More(op, rest) =>
      if AtomValue(op.atom).None? then None else Prefixed(AtomValue(op.atom).value, Value(rest))
  }

  function AtomValue(a: Atom): Option<string> {
    match a
    case Lit(text) => Some(text)
    case Code(_, _, _, _, digits, _) =>
      if !(IsDecimal(digits) || IsHex(digits)) || ParseVBInt(digits) > 0x10FFFF then None
      else Some([Rune(ParseVBInt(digits))])
    case Reverse(_, _, arg) => if Value(arg).None? then None else Some(Reversed(Value(arg).value))
    case Replace(_, _, src, find, with) => Replaced(Value(src), Value(find), Value(with))
  }

  function Replaced(src: Option<string>, find: Option<string>, with: Option<string>): Option<string> {
    if src.None? || find.None? || with.None? || find.value == "" then None
    else Some(ReplaceAll(src.value, find.value, with.value))
  }

  predicate IsPad(s: string) { forall k :: 0 <= k < |s| ==> s[k] in [' ', '\t', '\r', 12 as char] }

  /** `word` is `lower` in some letter case. */
  predicate Names(word: string, lower: string)
    requires IsWord(lower)
  {
    |word| == |lower| && forall k :: 0 <= k < |word| ==> InSomeCase(word[k], lower[k])
  }

  /** The letter itself, its capital, or the long s. */
  predicate InSomeCase(c: char, lower: char) {
    || c == lower || (lower == 's' && c as int == 0x17F)
    || exists i :: 0 <= i < 26 && SameLetter(i, lower, c)
  }

  /** `small` and `capital` are the i-th letter of the alphabet. */
  predicate SameLetter(i: nat, small: char, capital: char) {
    i < 26 && small as int == 'a' as int + i && capital as int == 'A' as int + i
  }

  lemma CaseIff(c: char, lower: char)
    requires 'a' <= lower <= 'z'
    ensures FoldsTo(c, lower) <==> InSomeCase(c, lower)
  {
    assert SameLetter((lower - 'a') as int, lower, ('A' as int + (lower - 'a') as int) as char);
  }

  lemma NamesIff(word: string, lower: string)
    requires IsWord(lower)
    ensures Names(word, lower) <==> |word| == |lower| && StartsWithWord(word, lower)
  {
    hide FoldsTo, InSomeCase;
    forall k | 0 <= k < |word| && |word| == |lower| ensures FoldsTo(word[k], lower[k]) <==> InSomeCase(word[k], lower[k]) {
      CaseIff(word[k], lower[k]);
    }
  }

  predicate Written(e: Expr) {
    WrittenOperand(e.op) && (e.More? ==> Written(e.rest))
  }

  predicate WrittenOperand(op: Operand) { IsPad(op.before) && IsPad(op.after) && WrittenAtom(op.atom) }

  predicate WrittenAtom(a: Atom) {
    match a
    case Lit(text) => '\n' !in text
    case Code(word, suffix, pad, before, digits, after) =>
      && Names(word, "chr") && suffix in ["", "W", "w", "$"]
      && IsPad(pad) && IsPad(before) && IsPad(after) && (IsDecimal(digits) || IsHex(digits))
    case Reverse(word, pad, arg) => Names(word, "strreverse") && IsPad(pad) && Written(arg)
    case Replace(word, pad, src, find, with) =>
      Names(word, "replace") && IsPad(pad) && Written(src) && Written(find) && Written(with)
  }

  // ---- what a constant expression means, said without the folder's functions ------------------------------------

  predicate OccursAt(s: string, find: string, k: nat) { k + |find| <= |s| && s[k..k + |find|] == find }

  function JoinedBy(pieces: seq<string>, with: string): string {
    if pieces == [] then "" else if |pieces| == 1 then pieces[0] else pieces[0] + (with + JoinedBy(pieces[1..], with))
  }

  ghost predicate FirstBehind(piece: string, find: string) {
    forall k: nat :: k < |piece| ==> !OccursAt(piece + find, find, k)
  }

  /** `find` first occurs right behind each piece but the last, and not in the last. */
  ghost predicate Leftmost(pieces: seq<string>, find: string) {
    && pieces != []
    && (forall i :: 0 <= i < |pieces| - 1 ==> FirstBehind(pieces[i], find))
    && Free(pieces[|pieces| - 1], find)
  }

  ghost predicate Free(s: string, find: string) { forall k: nat :: !OccursAt(s, find, k) }

  predicate Mirrored(s: string, r: string) { |r| == |s| && forall i :: 0 <= i < |s| ==> r[i] == s[|s| - 1 - i] }

  predicate IsDigitOf(c: char, d: nat) { d < 16 && (c == "0123456789abcdef"[d] || c == "0123456789ABCDEF"[d]) }

  ghost predicate SpeltIn(s: string, base: nat, ds: seq<nat>) {
    |s| == |ds| && forall i :: 0 <= i < |s| ==> ds[i] < base && IsDigitOf(s[i], ds[i])
  }

  /** A number as VBScript writes it: decimal, or hexadecimal behind `&H`. */
  ghost predicate Numeral(s: string, base: nat, ds: seq<nat>) {
    && ds != []
    && (|| (base == 10 && SpeltIn(s, 10, ds))
        || (base == 16 && |s| > 2 && (s[..2] == "&H" || s[..2] == "&h") && SpeltIn(s[2..], 16, ds)))
  }

  function Power(base: nat, n: nat): nat { if n == 0 then 1 else base * Power(base, n - 1) }

  /** The number with these digits, the most significant first. */
  function Sum(base: nat, ds: seq<nat>): nat {
    if ds == [] then 0 else ds[0] * Power(base, |ds| - 1) + Sum(base, ds[1..])
  }

  /** The character of a code point; surrogates become the replacement character. */
  predicate IsRune(n: nat, c: char) { c as int == if 0xD800 <= n <= 0xDFFF then 0xFFFD else n }

  ghost predicate CodeMeans(digits: string, v: string) {
    exists base, ds :: Numeral(digits, base, ds) && Sum(base, ds) <= 0x10FFFF && |v| == 1 && IsRune(Sum(base, ds), v[0])
  }

  /** `v` is `a` with every leftmost occurrence of `b` replaced by `c`. */
  ghost predicate Substituted(a: string, b: string, c: string, v: string) {
    b != "" && exists pieces :: Leftmost(pieces, b) && a == JoinedBy(pieces, b) && v == JoinedBy(pieces, c)
  }

  ghost predicate Means(e: Expr, v: string) {
    match e
    case Last(op) => AtomMeans(op.atom, v)
    case More(op, rest) => exists a, b :: AtomMeans(op.atom, a) && Means(rest, b) && v == a + b
  }

  ghost predicate AtomMeans(atom: Atom, v: string) {
    match atom
    case Lit(text) => v == text
    case Code(_, _, _, _, digits, _) => CodeMeans(digits, v)
    case Reverse(_, _, arg) => exists w :: Means(arg, w) && Mirrored(w, v)
    case Replace(_, _, src, find, with) =>
      exists a, b, c :: Means(src, a) && Means(find, b) && Means(with, c) && Substituted(a, b, c, v)
  }

  lemma {:induction false} ReversedIff(s: string, r: string)
    ensures Reversed(s) == r <==> Mirrored(s, r)
  {
    ReversedMirrors(s);
    if Mirrored(s, r) {
      var t := Reversed(s);
      assert forall i :: 0 <= i < |s| ==> t[i] == r[i];
    }
  }

  lemma {:induction false} ReversedMirrors(s: string)
    ensures Mirrored(s, Reversed(s))
  {
    if s != "" { ReversedMirrors(s[1..]); }
  }

  lemma {:induction false} ReplaceJoined(pieces: seq<string>, find: string, with: string)
    requires find != "" && Leftmost(pieces, find)
    ensures ReplaceAll(JoinedBy(pieces, find), find, with) == JoinedBy(pieces, with)
    decreases |pieces|
  {
    hide ReplaceAll, OccursAt;
    if |pieces| == 1 {
      NothingReplaced(pieces[0], find, with);
    } else {
      var rest := JoinedBy(pieces[1..], find);
      assert pieces[1..][|pieces| - 2] == pieces[|pieces| - 1];
      ReplaceJoined(pieces[1..], find, with);
      ReplaceSkips(pieces[0], find, rest, with);
    }
  }

  lemma {:induction false} NothingReplaced(s: string, find: string, with: string)
    requires find != "" && forall k: nat :: !OccursAt(s, find, k)
    ensures ReplaceAll(s, find, with) == s
  {
    if s != "" {
      assert !OccursAt(s, find, 0);
      forall k: nat ensures !OccursAt(s[1..], find, k) {
        assert !OccursAt(s, find, k + 1);
        if k + |find| <= |s| - 1 { assert s[1..][k..k + |find|] == s[k + 1..k + 1 + |find|]; }
      }
      NothingReplaced(s[1..], find, with);
    }
  }

  lemma {:induction false} ReplaceSkips(piece: string, find: string, rest: string, with: string)
    requires find != "" && forall k: nat :: k < |piece| ==> !OccursAt(piece + find, find, k)
    ensures ReplaceAll(piece + (find + rest), find, with) == piece + (with + ReplaceAll(rest, find, with))
  {
    var s := piece + (find + rest);
    if piece == "" {
      assert s == find + rest;
      assert find <= s && s[|find|..] == rest;
      assert "" + (with + ReplaceAll(rest, find, with)) == with + ReplaceAll(rest, find, with);
    } else {
      assert !OccursAt(piece + find, find, 0);
      assert s[..|find|] == (piece + find)[..|find|];
      assert s[1..] == piece[1..] + (find + rest);
      forall k: nat | k < |piece| - 1 ensures !OccursAt(piece[1..] + find, find, k) {
        assert !OccursAt(piece + find, find, k + 1);
        assert (piece[1..] + find)[k..k + |find|] == (piece + find)[k + 1..k + 1 + |find|];
      }
      ReplaceSkips(piece[1..], find, rest, with);
    }
  }

  /** Every text is pieces cut at the leftmost occurrences. */
  lemma {:induction false} CutAtLeftmost(s: string, find: string) returns (pieces: seq<string>)
    requires find != ""
    ensures Leftmost(pieces, find) && JoinedBy(pieces, find) == s
    decreases |s|
  {
    hide OccursAt;
    if k: nat :| OccursAt(s, find, k) {
      var first := FirstOccurrence(s, find, k);
      var rest := CutAtLeftmost(s[first + |find|..], find);
      pieces := [s[..first]] + rest;
      assert pieces[1..] == rest;
      assert s == s[..first] + (find + s[first + |find|..]);
      assert forall i :: 0 < i < |pieces| ==> pieces[i] == rest[i - 1];
    } else {
      pieces := [s];
    }
  }

  lemma {:induction false} FirstOccurrence(s: string, find: string, at: nat) returns (first: nat)
    requires find != "" && OccursAt(s, find, at)
    ensures first + |find| <= |s| && s == s[..first] + (find + s[first + |find|..])
    ensures forall k: nat :: k < first ==> !OccursAt(s[..first] + find, find, k)
    decreases at
  {
    if k: nat :| k < at && OccursAt(s, find, k) {
      first := FirstOccurrence(s, find, k);
    } else {
      first := at;
      assert s[..at] + find == s[..at + |find|];
      forall k: nat | k < at ensures !OccursAt(s[..at] + find, find, k) {
        assert k + |find| <= |s| && !OccursAt(s, find, k);
        assert s[..at + |find|][k..k + |find|] == s[k..k + |find|];
      }
    }
  }

  /** Replacing is cutting at the leftmost occurrences and joining with the other text. */
  lemma ReplaceIff(a: string, b: string, c: string, v: string)
    requires b != ""
    ensures ReplaceAll(a, b, c) == v <==> Substituted(a, b, c, v)
  {
    hide ReplaceAll, Leftmost, JoinedBy;
    if ReplaceAll(a, b, c) == v {
      var pieces := CutAtLeftmost(a, b);
      ReplaceJoined(pieces, b, c);
    }
    if Substituted(a, b, c, v) {
      var pieces :| Leftmost(pieces, b) && a == JoinedBy(pieces, b) && v == JoinedBy(pieces, c);
      ReplaceJoined(pieces, b, c);
    }
  }

  lemma DigitIff(c: char, d: nat)
    ensures IsDigitOf(c, d) <==> IsHexDigit(c) && DigitValue(c) == d
    ensures IsDigit(c) <==> exists e: nat :: e < 10 && IsDigitOf(c, e)
  {
    var lowers, capitals := "0123456789abcdef", "0123456789ABCDEF";
    assert forall k :: 0 <= k < 10 ==> lowers[k] as int == 48 + k && capitals[k] as int == 48 + k;
    assert forall k :: 10 <= k < 16 ==> lowers[k] as int == 87 + k && capitals[k] as int == 55 + k;
    if IsDigit(c) { assert IsDigitOf(c, (c - '0') as int); }
  }

  lemma {:induction false} SumSnoc(base: nat, ds: seq<nat>, d: nat)
    ensures Sum(base, ds + [d]) == Sum(base, ds) * base + d
  {
    if ds == [] {
      assert ([] + [d])[1..] == [] && Power(base, 0) == 1;
    } else {
      assert (ds + [d])[1..] == ds[1..] + [d];
      SumSnoc(base, ds[1..], d);
      var p, q := Power(base, |ds| - 1), Sum(base, ds[1..]);
      assert Power(base, |ds|) == base * p;
      Distribute(ds[0], p, base, q);
    }
  }

  lemma Distribute(a: nat, p: nat, base: nat, q: nat)
    ensures a * (base * p) + q * base == (a * p + q) * base
  {}

  lemma {:induction false} NumberIsSum(base: nat, s: string, ds: seq<nat>)
    requires SpeltIn(s, base, ds)
    ensures forall c :: c in s ==> IsHexDigit(c)
    ensures NumberIn(base, s) == Sum(base, ds)
    decreases |s|
  {
    hide Sum, IsDigitOf, IsHexDigit, DigitValue;
    forall i | 0 <= i < |s| ensures IsHexDigit(s[i]) && DigitValue(s[i]) == ds[i] { DigitIff(s[i], ds[i]); }
    if s == "" {
      NoDigits(base);
    } else {
      var n := |s| - 1;
      NumberIsSum(base, s[..n], ds[..n]);
      assert ds == ds[..n] + [ds[n]];
      SumSnoc(base, ds[..n], ds[n]);
    }
  }

  lemma NoDigits(base: nat) ensures Sum(base, []) == 0 {}

  lemma DigitsOf(s: string, base: nat) returns (ds: seq<nat>)
    requires base == 10 || base == 16
    requires forall c :: c in s ==> if base == 10 then IsDigit(c) else IsHexDigit(c)
    ensures SpeltIn(s, base, ds)
  {
    ds := seq(|s|, i requires 0 <= i < |s| => if IsHexDigit(s[i]) then DigitValue(s[i]) else 0);
    forall i | 0 <= i < |s| ensures ds[i] < base && IsDigitOf(s[i], ds[i]) {
      assert s[i] in s;
      DigitIff(s[i], ds[i]);
    }
  }

  lemma NumeralReads(s: string, base: nat, ds: seq<nat>)
    requires Numeral(s, base, ds)
    ensures (IsDecimal(s) || IsHex(s)) && ParseVBInt(s) == Sum(base, ds)
  {
    hide IsDigitOf, IsHexDigit, DigitValue, Sum, NumberIn;
    if base == 10 {
      NumberIsSum(10, s, ds);
      forall c | c in s ensures IsDigit(c) {
        var i :| 0 <= i < |s| && s[i] == c;
        DigitIff(c, ds[i]);
      }
      assert s[0] in s;
    } else {
      NumberIsSum(16, s[2..], ds);
      assert s[0] == s[..2][0] && s[1] == s[..2][1];
      forall k | 2 <= k < |s| ensures IsHexDigit(s[k]) { assert s[2..][k - 2] == s[k]; }
    }
  }

  lemma NumeralOf(s: string) returns (base: nat, ds: seq<nat>)
    requires IsDecimal(s) || IsHex(s)
    ensures Numeral(s, base, ds)
  {
    if IsDecimal(s) {
      base := 10;
      ds := DigitsOf(s, 10);
    } else {
      base := 16;
      assert forall c :: c in s[2..] ==> exists k :: 2 <= k < |s| && s[k] == c;
      ds := DigitsOf(s[2..], 16);
      assert s[..2] == [s[0], s[1]];
    }
  }

  /** Quoting doubles each quote, and nothing else. */
  lemma {:induction false} DoubledIsReplaced(s: string)
    ensures Doubled(s) == ReplaceAll(s, "\"", "\"\"")
  {
    if s != "" {
      DoubledIsReplaced(s[1..]);
      assert s[..1] == [s[0]];
    }
  }

  /** A character code call means the character of its number. */
  lemma CodeIff(digits: string, v: string)
    ensures CodeMeans(digits, v) <==>
              (IsDecimal(digits) || IsHex(digits)) && ParseVBInt(digits) <= 0x10FFFF && v == [Rune(ParseVBInt(digits))]
  {
    hide Numeral, Sum, ParseVBInt, IsDecimal, IsHex;
    if IsDecimal(digits) || IsHex(digits) {
      var base, ds := NumeralOf(digits);
      NumeralReads(digits, base, ds);
    }
    if CodeMeans(digits, v) {
      var base, ds :| Numeral(digits, base, ds) && Sum(base, ds) <= 0x10FFFF && |v| == 1 && IsRune(Sum(base, ds), v[0]);
      NumeralReads(digits, base, ds);
      assert v[0] == Rune(ParseVBInt(digits));
    }
  }

  /** The value of an expression is what it means. */
  lemma {:induction false} ValueIff(e: Expr, v: string)
    ensures Value(e) == Some(v) <==> Means(e, v)
    decreases e
  {
    hide AtomMeans, AtomValue;
    if e.Last? {
      AtomValueIff(e.op.atom, v);
    } else {
      forall a ensures AtomValue(e.op.atom) == Some(a) <==> AtomMeans(e.op.atom, a) { AtomValueIff(e.op.atom, a); }
      forall b ensures Value(e.rest) == Some(b) <==> Means(e.rest, b) { ValueIff(e.rest, b); }
      if Value(e) == Some(v) {
        assert AtomMeans(e.op.atom, AtomValue(e.op.atom).value) && Means(e.rest, Value(e.rest).value);
      }
    }
  }

  lemma {:induction false} AtomValueIff(a: Atom, v: string)
    ensures AtomValue(a) == Some(v) <==> AtomMeans(a, v)
    decreases a
  {
    hide Value, Means, CodeMeans, ParseVBInt, Reversed, Mirrored, ReplaceAll, Substituted, IsDecimal, IsHex;
    match a {
      case Lit(_) =>
      case Code(_, _, _, _, digits, _) => CodeIff(digits, v);
      case Reverse(_, _, arg) =>
        forall w ensures (Value(arg) == Some(w) <==> Means(arg, w)) && (Reversed(w) == v <==> Mirrored(w, v)) {
          ValueIff(arg, w);
          ReversedIff(w, v);
        }
        if AtomValue(a) == Some(v) { assert Means(arg, Value(arg).value); }
      case Replace(_, _, src, find, with) => ReplaceValueIff(a, v);
    }
  }

  lemma {:induction false} ReplaceValueIff(a: Atom, v: string)
    requires a.Replace?
    ensures AtomValue(a) == Some(v) <==> AtomMeans(a, v)
    decreases a, 0
  {
    hide Value, Means, ReplaceAll, Substituted;
    forall w ensures Value(a.src) == Some(w) <==> Means(a.src, w) { ValueIff(a.src, w); }
    forall w ensures Value(a.find) == Some(w) <==> Means(a.find, w) { ValueIff(a.find, w); }
    forall w ensures Value(a.with) == Some(w) <==> Means(a.with, w) { ValueIff(a.with, w); }
    if Value(a.src).Some? && Value(a.find).Some? && Value(a.with).Some? {
      var x, y, z := Value(a.src).value, Value(a.find).value, Value(a.with).value;
      assert Means(a.src, x) && Means(a.find, y) && Means(a.with, z);
      if y != "" { ReplaceIff(x, y, z, v); }
      NothingSubstituted(x, y, z, v);
    }
  }

  lemma NothingSubstituted(a: string, b: string, c: string, v: string)
    ensures Substituted(a, b, c, v) ==> b != ""
  {}

  // ---- printed text is whole, and its separators are guarded ---------------------------------------------------

  lemma {:induction false} Lifted(p: Place, s: string)
    requires p.At? && Scan(p, s).At?
    ensures Scan(At(p.depth + 1, p.quoted), s) == At(Scan(p, s).depth + 1, Scan(p, s).quoted)
  {
    if s != "" {
      Lifted(p, s[..|s| - 1]);
    }
  }

  lemma PrefixNotBroken(s: string, n: nat)
    requires n <= |s| && Scan(Top, s) == Top
    ensures Scan(Top, s[..n]).At?
  {
    if Scan(Top, s[..n]).Broken? { BrokenStays(s, n); }
  }

  lemma PieceConcat(a: string, b: string, sep: char)
    requires IsPiece(a, sep) && IsPiece(b, sep)
    ensures IsPiece(a + b, sep)
  {
    hide Scan;
    ScanConcat(Top, a, b);
    forall k | 0 <= k < |a + b| && (a + b)[k] == sep ensures Scan(Top, (a + b)[..k]) != Top {
      if k < |a| {
        assert (a + b)[..k] == a[..k];
      } else {
        assert (a + b)[..k] == a + b[..k - |a|];
        ScanConcat(Top, a, b[..k - |a|]);
      }
    }
  }

  lemma PlainPiece(s: string, sep: char)
    requires forall k :: 0 <= k < |s| ==> IsSeparator(s[k]) && s[k] != sep
    ensures IsPiece(s, sep)
  {
    PlainScan(Top, s);
  }

  lemma {:induction false} PlainScan(p: Place, s: string)
    requires forall k :: 0 <= k < |s| ==> IsSeparator(s[k])
    ensures Scan(p, s) == p
  {
    if s != "" { PlainScan(p, s[..|s| - 1]); }
  }

  lemma NestedPiece(body: string, sep: char)
    requires Scan(Top, body) == Top && IsSeparator(sep)
    ensures IsPiece("(" + body + ")", sep)
  {
    hide Scan;
    var open := "(" + body;
    var t := open + ")";
    ScanOpen();
    ScanConcat(Top, "(", body);
    Lifted(Top, body);
    ScanGrown(Top, open, ')');
    forall k | 0 <= k < |t| && t[k] == sep ensures Scan(Top, t[..k]) != Top {
      assert 1 <= k <= |body|;
      assert t[..k] == "(" + body[..k - 1];
      ScanConcat(Top, "(", body[..k - 1]);
      PrefixNotBroken(body, k - 1);
      Lifted(Top, body[..k - 1]);
    }
  }

  lemma ScanOpen()
    ensures Scan(Top, "(") == At(1, false) && Scan(Top, "\"") == At(0, true)
  {
    assert ("(")[..0] == "" && ("\"")[..0] == "";
  }

  lemma {:induction false} QuotedScan(s: string, k: nat)
    requires k <= |Doubled(s)|
    ensures Scan(At(0, true), Doubled(s)) == At(0, true)
    ensures k < |Doubled(s)| && Doubled(s)[k] != '"' ==> Scan(At(0, true), Doubled(s)[..k]) == At(0, true)
    decreases |s|
  {
    if s != "" {
      var head := if s[0] == '"' then "\"\"" else [s[0]];
      var rest := Doubled(s[1..]);
      assert Doubled(s) == head + rest;
      HeadScan(s[0]);
      ScanConcat(At(0, true), head, rest);
      QuotedScan(s[1..], if k < |head| then 0 else k - |head|);
      if |head| <= k {
        assert Doubled(s)[..k] == head + rest[..k - |head|];
        ScanConcat(At(0, true), head, rest[..k - |head|]);
      } else if k == 0 {
        assert Doubled(s)[..k] == "";
      }
    }
  }

  lemma HeadScan(c: char)
    ensures var head := if c == '"' then "\"\"" else [c]; Scan(At(0, true), head) == At(0, true)
  {
    ScanGrown(At(0, true), "", c);
    ScanGrown(At(0, true), "\"", '"');
    assert "" + [c] == [c] && "\"" + ['"'] == "\"\"";
  }

  lemma QuotedPiece(s: string, sep: char)
    requires IsSeparator(sep)
    ensures IsPiece(Quoted(s), sep)
  {
    hide Scan, Doubled;
    var open := "\"" + Doubled(s);
    ScanOpen();
    QuotedScan(s, 0);
    ScanConcat(Top, "\"", Doubled(s));
    ScanGrown(Top, open, '"');
    var t := Quoted(s);
    assert t == open + ['"'];
    forall k | 0 <= k < |t| && t[k] == sep ensures Scan(Top, t[..k]) != Top {
      assert 1 <= k <= |Doubled(s)|;
      assert t[..k] == "\"" + Doubled(s)[..k - 1];
      QuotedScan(s, k - 1);
      ScanConcat(Top, "\"", Doubled(s)[..k - 1]);
    }
  }

  predicate Splits(sep: char) { sep == '&' || sep == ',' }

  lemma PadPiece(pad: string, sep: char)
    requires IsPad(pad) && Splits(sep)
    ensures IsPiece(pad, sep)
  {
    PlainPiece(pad, sep);
  }

  lemma CallPiece(word: string, pad: string, body: string, sep: char)
    requires IsPad(pad) && Splits(sep) && Scan(Top, body) == Top
    requires forall k :: 0 <= k < |word| ==> IsSeparator(word[k]) && word[k] != sep
    ensures IsPiece(Call(word, pad, body), sep)
  {
    hide IsPiece, Scan, IsPad;
    PlainPiece(word, sep);
    PadPiece(pad, sep);
    NestedPiece(body, sep);
    PieceConcat(word, pad, sep);
    PieceConcat(word + pad, "(" + body + ")", sep);
  }

  lemma NamePlain(word: string, lower: string, sep: char)
    requires IsWord(lower) && Names(word, lower) && Splits(sep)
    ensures forall k :: 0 <= k < |word| ==> IsSeparator(word[k]) && word[k] != sep
  {}

  lemma {:induction false} AtomPiece(a: Atom, sep: char)
    requires WrittenAtom(a) && Splits(sep)
    ensures IsPiece(PrintAtom(a), sep)
    decreases a, 1
  {
    hide Scan, Names, IsPad, Call, Quoted, NoTop, IsWord;
    match a {
      case Lit(text) => QuotedPiece(text, sep);
      case Code(word, suffix, pad, before, digits, after) => CodePiece(a, sep);
      case Reverse(word, pad, arg) =>
        ReverseName();
        PrintWhole(arg);
        NamePlain(word, "strreverse", sep);
        CallPiece(word, pad, Print(arg), sep);
      case Replace(word, pad, src, find, with) =>
        ReplaceName();
        ReplaceWhole(a);
        NamePlain(word, "replace", sep);
        CallPiece(word, pad, Print(src) + "," + (Print(find) + "," + Print(with)), sep);
    }
  }

  lemma CodeName() ensures IsWord("chr") {}
  lemma ReverseName() ensures IsWord("strreverse") {}
  lemma ReplaceName() ensures IsWord("replace") {}

  lemma CodePiece(a: Atom, sep: char)
    requires a.Code? && WrittenAtom(a) && Splits(sep)
    ensures IsPiece(PrintAtom(a), sep)
  {
    hide IsPiece, Scan;
    DigitsPlain(a.digits);
    PlainScan(Top, a.before + a.digits + a.after);
    NamePlain(a.word, "chr", sep);
    CallPiece(a.word + a.suffix, a.pad, a.before + a.digits + a.after, sep);
  }

  lemma DigitsPlain(digits: string)
    requires IsDecimal(digits) || IsHex(digits)
    ensures forall k :: 0 <= k < |digits| ==> IsSeparator(digits[k])
  {
    forall k | 0 <= k < |digits| ensures IsSeparator(digits[k]) {
      assert digits[k] in digits;
    }
  }

  lemma ReplaceWhole(a: Atom)
    requires a.Replace? && WrittenAtom(a)
    ensures Scan(Top, Print(a.src) + "," + (Print(a.find) + "," + Print(a.with))) == Top
    decreases a, 0
  {
    hide Scan, Names, IsPad, Print;
    PrintWhole(a.src);
    PrintWhole(a.find);
    PrintWhole(a.with);
    CommaWhole(Print(a.find), Print(a.with));
    CommaWhole(Print(a.src), Print(a.find) + "," + Print(a.with));
  }

  lemma CommaWhole(a: string, b: string)
    requires Scan(Top, a) == Top && Scan(Top, b) == Top
    ensures Scan(Top, a + "," + b) == Top
  {
    hide Scan;
    ScanGrown(Top, a, ',');
    ScanConcat(Top, a + ",", b);
  }

  lemma OperandPiece(op: Operand, sep: char)
    requires WrittenOperand(op) && Splits(sep)
    ensures IsPiece(PrintOperand(op), sep)
    decreases op, 1
  {
    hide IsPiece, IsPad, PrintAtom, WrittenAtom;
    AtomPiece(op.atom, sep);
    PadPiece(op.before, sep);
    PadPiece(op.after, sep);
    PieceConcat(op.before, PrintAtom(op.atom), sep);
    PieceConcat(op.before + PrintAtom(op.atom), op.after, sep);
  }

  lemma {:induction false} PrintWhole(e: Expr)
    requires Written(e)
    ensures Scan(Top, Print(e)) == Top && IsPiece(Print(e), ',')
    decreases e, 2
  {
    hide Scan, NoTop, WrittenOperand, PrintOperand, Splits;
    SplitsBoth();
    OperandPiece(e.op, ',');
    if e.More? {
      PrintWhole(e.rest);
      AmpersandPiece();
      PieceConcat(PrintOperand(e.op), "&", ',');
      PieceConcat(PrintOperand(e.op) + "&", Print(e.rest), ',');
    }
  }

  lemma SplitsBoth() ensures Splits(',') && Splits('&') && IsSeparator(',') && IsSeparator('&') {}

  lemma AmpersandPiece()
    ensures IsPiece("&", ',')
  {
    PlainPiece("&", ',');
  }

  // ---- what the folder reads back ---------------------------------------------------------------------------------

  function Operands(e: Expr): (ps: seq<string>)
    ensures ps != []
  {
    match e
    case Last(op) => [PrintOperand(op)]
    case More(op, rest) => [PrintOperand(op)] + Operands(rest)
  }

  lemma {:induction false} JoinCons(p: string, ps: seq<string>, sep: char)
    requires ps != []
    ensures Join([p] + ps, sep) == p + [sep] + Join(ps, sep)
  {
    assert ([p] + ps)[..|ps|] == [p] + ps[..|ps| - 1];
    if |ps| > 1 { JoinCons(p, ps[..|ps| - 1], sep); }
  }

  lemma {:induction false} OperandsJoin(e: Expr)
    requires Written(e)
    ensures Join(Operands(e), '&') == Print(e)
    ensures forall i :: 0 <= i < |Operands(e)| ==> IsPiece(Operands(e)[i], '&')
  {
    hide IsPiece, Join, WrittenOperand, PrintOperand;
    OperandPiece(e.op, '&');
    if e.More? {
      OperandsJoin(e.rest);
      JoinCons(PrintOperand(e.op), Operands(e.rest), '&');
    } else {
      JoinOne(PrintOperand(e.op), '&');
    }
  }

  lemma JoinOne(p: string, sep: char) ensures Join([p], sep) == p {}

  lemma {:induction false} TrimLeftPad(pad: string, s: string, space: char -> bool)
    requires forall k :: 0 <= k < |pad| ==> space(pad[k])
    requires s == "" || !space(s[0])
    ensures TrimLeft(pad + s, space) == s
  {
    if pad == "" {
      assert pad + s == s;
    } else {
      assert (pad + s)[1..] == pad[1..] + s;
      TrimLeftPad(pad[1..], s, space);
    }
  }

  lemma {:induction false} TrimRightPad(s: string, pad: string, space: char -> bool)
    requires forall k :: 0 <= k < |pad| ==> space(pad[k])
    requires s == "" || !space(s[|s| - 1])
    ensures TrimRight(s + pad, space) == s
  {
    if pad == "" {
      assert s + pad == s;
    } else {
      assert (s + pad)[..|s + pad| - 1] == s + pad[..|pad| - 1];
      TrimRightPad(s, pad[..|pad| - 1], space);
    }
  }

  /** An atom starts and ends with characters no trimming takes. */
  lemma AtomEdges(a: Atom)
    requires WrittenAtom(a)
    ensures var t := PrintAtom(a); t != "" && !IsSpace(t[0]) && !IsSpace(t[|t| - 1])
  {
    if !a.Lit? { WordStarts(a); }
    hide Print, Doubled, Names;
  }

  /** The name of a call starts with its letter. */
  lemma WordStarts(a: Atom)
    requires WrittenAtom(a) && !a.Lit?
    ensures a.word != "" && !IsSpace(a.word[0]) && a.word[0] != '"'
  {
    CodeName();
    ReverseName();
    ReplaceName();
    var lower := if a.Code? then "chr" else if a.Reverse? then "strreverse" else "replace";
    NamesIff(a.word, lower);
    assert FoldsTo(a.word[0], lower[0]);
  }

  lemma TrimOperand(op: Operand)
    requires WrittenOperand(op)
    ensures Trim(PrintOperand(op)) == PrintAtom(op.atom)
  {
    hide PrintAtom, WrittenAtom, TrimLeft, TrimRight;
    var t := PrintAtom(op.atom);
    AtomEdges(op.atom);
    assert PrintOperand(op) == op.before + (t + op.after);
    TrimLeftPad(op.before, t + op.after, IsSpace);
    TrimRightPad(t, op.after, IsSpace);
  }

  function Size(e: Expr): nat { 1 + AtomSize(e.op.atom) + if e.More? then Size(e.rest) else 0 }

  function AtomSize(a: Atom): nat {
    match a
    case Reverse(_, _, arg) => 1 + Size(arg)
    case Replace(_, _, src, find, with) => 1 + Size(src) + Size(find) + Size(with)
    case _ => 1
  }

  /** The expression without its leading white space. */
  function Stripped(e: Expr): Expr { e.(op := e.op.(before := "")) }

  lemma StrippedSame(e: Expr)
    requires Written(e)
    ensures Written(Stripped(e)) && Size(Stripped(e)) == Size(e) && Value(Stripped(e)) == Value(e)
  {
    hide WrittenAtom;
  }

  lemma StripPrint(e: Expr, rest: string)
    requires Written(e)
    ensures TrimLeft(Print(e) + rest, IsBlank) == Print(Stripped(e)) + rest
    ensures Print(Stripped(e)) != ""
  {
    hide PrintAtom, WrittenAtom, TrimLeft;
    AtomEdges(e.op.atom);
    var t := Print(Stripped(e));
    assert PrintOperand(Stripped(e).op) == PrintAtom(e.op.atom) + e.op.after;
    assert Print(e) + rest == e.op.before + (t + rest);
    TrimLeftPad(e.op.before, t + rest, IsBlank);
  }

  lemma {:induction false} DoubledLine(s: string)
    requires '\n' !in s
    ensures '\n' !in Doubled(s)
  {
    if s != "" { DoubledLine(s[1..]); }
  }

  lemma NameLine(word: string, lower: string)
    requires IsWord(lower) && Names(word, lower)
    ensures '\n' !in word
  {}

  lemma CallLine(word: string, pad: string, body: string)
    requires '\n' !in word && IsPad(pad) && '\n' !in body
    ensures '\n' !in Call(word, pad, body)
  {}

  lemma CodeLine(a: Atom)
    requires a.Code? && WrittenAtom(a)
    ensures '\n' !in PrintAtom(a)
  {
    hide Call;
    NameLine(a.word, "chr");
    CallLine(a.word + a.suffix, a.pad, a.before + a.digits + a.after);
  }

  lemma {:induction false} AtomLine(a: Atom)
    requires WrittenAtom(a)
    ensures '\n' !in PrintAtom(a)
  {
    hide Print, Call, Doubled, Names, IsPad, IsWord;
    match a {
      case Lit(text) => DoubledLine(text);
      case Code(word, suffix, pad, before, digits, after) => CodeLine(a);
      case Reverse(word, pad, arg) =>
        ReverseName();
        NameLine(word, "strreverse");
        PrintLine(arg);
        CallLine(word, pad, Print(arg));
      case Replace(word, pad, src, find, with) =>
        ReplaceName();
        NameLine(word, "replace");
        PrintLine(src);
        PrintLine(find);
        PrintLine(with);
        CallLine(word, pad, Print(src) + "," + (Print(find) + "," + Print(with)));
    }
  }

  lemma {:induction false} PrintLine(e: Expr)
    requires Written(e)
    ensures '\n' !in Print(e)
  {
    AtomLine(e.op.atom);
    if e.More? { PrintLine(e.rest); }
  }

  lemma {:induction false} OneLine(s: string)
    requires '\n' !in s
    ensures LineLength(s) == |s|
  {
    if s != "" { OneLine(s[1..]); }
  }

  lemma CallParenthesis(word: string, pad: string, body: string)
    requires IsPad(pad)
    ensures Call(word, pad, body)[|word|..] == pad + ("(" + body + ")")
    ensures Parenthesised(pad + ("(" + body + ")")) == Some(body)
  {
    hide TrimLeft;
    TrimLeftPad(pad, "(" + body + ")", IsBlank);
    assert ("(" + body + ")")[1..|body| + 1] == body;
  }

  lemma NamedCall(word: string, pad: string, body: string, lower: string)
    requires IsWord(lower) && Names(word, lower)
    ensures StartsWithWord(Call(word, pad, body), lower)
  {
    assert Call(word, pad, body) == word + (pad + ("(" + body + ")"));
    NamedPrefix(word, pad + ("(" + body + ")"), lower);
  }

  /** The argument text a call pattern takes from a printed call. */
  lemma CallReads(word: string, pad: string, first: Expr, rest: string, lower: string)
    requires IsWord(lower) && Names(word, lower) && IsPad(pad) && Written(first) && '\n' !in rest
    ensures CallBody(Call(word, pad, Print(first) + rest), lower) == Some(Print(Stripped(first)) + rest)
  {
    hide Call, Print, TrimLeft, LineLength, Parenthesised, StartsWithWord, IsPad, Written;
    var body := Print(first) + rest;
    var kept := Print(Stripped(first)) + rest;
    NamedCall(word, pad, body, lower);
    CallParenthesis(word, pad, body);
    StripPrint(first, rest);
    StrippedSame(first);
    PrintLine(Stripped(first));
    OneLine(kept);
    assert kept[|kept|..] == "" && kept[..|kept|] == kept;
    TrimNothing();
  }

  /** What no call pattern takes: nothing between the parentheses, or an argument text that goes on after a line
      break. */
  lemma NoCall(word: string, first: string, rest: string, lower: string)
    requires IsWord(lower) && Names(word, lower)
    ensures CallBody(word + ("(" + ("" + ")")), lower) == None
    ensures first != "" && !IsBlank(first[0]) && '\n' !in first && rest != "" && !IsBlank(rest[|rest| - 1]) ==>
              CallBody(word + ("(" + (first + ("\n" + rest) + ")")), lower) == None
  {
    hide LineLength, StartsWithWord, Names;
    NamedPrefix(word, "(" + ("" + ")"), lower);
    assert ("(" + ("" + ")"))[1..1] == "";
    var body := first + ("\n" + rest);
    var t := "(" + (body + ")");
    NamedPrefix(word, t, lower);
    assert t[1..|t| - 1] == body;
    if first != "" && !IsBlank(first[0]) && '\n' !in first && rest != "" && !IsBlank(rest[|rest| - 1]) {
      LineBefore(first, rest);
      assert body[|first|..] == "\n" + rest;
      LastStays("\n" + rest);
    }
  }

  lemma {:induction false} LineBefore(first: string, rest: string)
    requires '\n' !in first
    ensures LineLength(first + ("\n" + rest)) == |first|
  {
    if first == "" {
      assert first + ("\n" + rest) == "\n" + rest;
    } else {
      assert first[0] in first && forall c :: c in first[1..] ==> c in first;
      assert (first + ("\n" + rest))[1..] == first[1..] + ("\n" + rest);
      LineBefore(first[1..], rest);
    }
  }

  /** Trimming in front never reaches a last character that is no blank. */
  lemma {:induction false} LastStays(s: string)
    requires s != "" && !IsBlank(s[|s| - 1])
    ensures TrimLeft(s, IsBlank) != ""
  {
    if IsBlank(s[0]) { LastStays(s[1..]); }
  }

  lemma TrimNothing() ensures TrimLeft("", IsBlank) == "" {}

  // ---- folding a printed expression gives its value ---------------------------------------------------------------

  /** The folder computes the value of every constant expression, however it is spaced and spelled. */
  lemma {:induction false} FoldPrinted(e: Expr)
    requires Written(e)
    ensures FoldVB(Print(e)) == Value(e)
    decreases Size(e), 2
  {
    hide Split, FoldParts, Print, Operands, Value, Written;
    OperandsJoin(e);
    SplitsBoth();
    SplitJoin(Operands(e), '&');
    SplitWithin(Print(e), '&');
    FoldOperands(e, |Print(e)|);
  }

  /** The folder reads every constant expression as what it means, and nothing else. */
  lemma FoldMeans(e: Expr, v: string)
    requires Written(e)
    ensures FoldVB(Print(e)) == Some(v) <==> Means(e, v)
  {
    hide FoldVB, Means, Value;
    FoldPrinted(e);
    ValueIff(e, v);
  }

  lemma SplitWithin(s: string, sep: char)
    ensures Split(s, sep).Some? ==> forall p :: p in Split(s, sep).value ==> |p| <= |s|
  {}

  lemma {:induction false} FoldOperands(e: Expr, n: nat)
    requires Written(e) && forall p :: p in Operands(e) ==> |p| <= n
    ensures FoldParts(Operands(e), n) == Value(e)
    decreases Size(e), 1
  {
    hide FoldOne, Trim, WrittenAtom, PrintOperand, AtomValue, PrintAtom;
    TrimOperand(e.op);
    FoldAtom(e.op.atom);
    var ps := Operands(e);
    if e.Last? {
      assert ps[1..] == [];
      FoldNothing(n);
      if AtomValue(e.op.atom).Some? { assert AtomValue(e.op.atom).value + "" == AtomValue(e.op.atom).value; }
    } else {
      assert ps[1..] == Operands(e.rest);
      FoldOperands(e.rest, n);
    }
  }

  lemma FoldNothing(n: nat) ensures FoldParts([], n) == Some("") {}

  lemma {:induction false} FoldAtom(a: Atom)
    requires WrittenAtom(a)
    ensures FoldOne(PrintAtom(a)) == AtomValue(a)
    decreases AtomSize(a), 3
  {
    match a {
      case Lit(text) => FoldLiteral(text);
      case Code(word, suffix, pad, before, digits, after) => FoldCode(a);
      case Reverse(word, pad, arg) => FoldReverse(a);
      case Replace(word, pad, src, find, with) => FoldReplace(a);
    }
  }

  lemma FoldLiteral(text: string)
    ensures FoldOne(Quoted(text)) == Some(text)
  {
    hide Doubled, Unquoted;
    UnquoteInverse(Quoted(text), text);
  }

  lemma FoldCode(a: Atom)
    requires a.Code? && WrittenAtom(a)
    ensures FoldOne(PrintAtom(a)) == AtomValue(a)
  {
    hide ParseVBInt;
    CodeReads(a);
  }

  lemma CodeReads(a: Atom)
    requires a.Code? && WrittenAtom(a)
    ensures ChrArgument(PrintAtom(a)) == Some(a.digits) && PrintAtom(a)[0] != '"'
  {
    hide TrimLeft, TrimRight, Parenthesised, StartsWithWord, IsPad, IsDecimal, IsHex, Call;
    var body := a.before + a.digits + a.after;
    var rest := a.pad + ("(" + body + ")");
    NamedCode(a, body);
    CallParenthesis("", a.pad, body);
    SuffixStripped(a.suffix, rest);
    NumberReads(a.before, a.digits, a.after);
  }

  lemma NamedCode(a: Atom, body: string)
    requires a.Code? && Names(a.word, "chr") && IsPad(a.pad)
    ensures var t := Call(a.word + a.suffix, a.pad, body); var rest := a.pad + ("(" + body + ")");
            && StartsWithWord(t, "chr") && t[3..] == a.suffix + rest && t[0] != '"' && rest != "" && rest[0] in [' ', '\t', '\r', 12 as char, '(']
  {
    var t := Call(a.word + a.suffix, a.pad, body);
    assert t == a.word + (a.suffix + (a.pad + ("(" + body + ")")));
    NamedPrefix(a.word, a.suffix + (a.pad + ("(" + body + ")")), "chr");
    assert FoldsTo(t[0], "chr"[0]);
  }

  lemma NamedPrefix(word: string, rest: string, lower: string)
    requires IsWord(lower) && Names(word, lower)
    ensures StartsWithWord(word + rest, lower) && (word + rest)[|lower|..] == rest
  {
    forall k | 0 <= k < |lower| ensures FoldsTo((word + rest)[k], lower[k]) {
      assert FoldsTo(word[k], lower[k]);
    }
  }

  lemma SuffixStripped(suffix: string, rest: string)
    requires suffix in ["", "W", "w", "$"] && rest != "" && rest[0] in [' ', '\t', '\r', 12 as char, '(']
    ensures var u := suffix + rest; (if u != "" && (FoldsTo(u[0], 'w') || u[0] == '$') then u[1..] else u) == rest
  {
    if suffix == "" { assert suffix + rest == rest; } else { assert (suffix + rest)[1..] == rest; }
  }

  lemma NumberReads(before: string, digits: string, after: string)
    requires IsPad(before) && IsPad(after) && (IsDecimal(digits) || IsHex(digits))
    ensures TrimRight(TrimLeft(before + digits + after, IsBlank), IsBlank) == digits
  {
    hide TrimLeft, TrimRight;
    DigitsEdges(digits);
    assert before + digits + after == before + (digits + after);
    TrimLeftPad(before, digits + after, IsBlank);
    TrimRightPad(digits, after, IsBlank);
  }

  lemma DigitsEdges(digits: string)
    requires IsDecimal(digits) || IsHex(digits)
    ensures digits != "" && !IsBlank(digits[0]) && !IsBlank(digits[|digits| - 1])
  {
    assert digits[0] in digits && digits[|digits| - 1] in digits;
  }

  lemma FoldReverse(a: Atom)
    requires a.Reverse? && WrittenAtom(a)
    ensures FoldOne(PrintAtom(a)) == AtomValue(a)
    decreases AtomSize(a), 1
  {
    hide Call, Print, CallBody, ChrArgument, FoldVB, Value, Written, IsPad, Size, Names;
    var t := PrintAtom(a);
    ReverseName();
    StrippedSame(a.arg);
    FoldPrinted(Stripped(a.arg));
    CallReads(a.word, a.pad, a.arg, "", "strreverse");
    assert Print(a.arg) + "" == Print(a.arg) && Print(Stripped(a.arg)) + "" == Print(Stripped(a.arg));
    NotAnotherCall(a);
  }

  /** The names of the calls differ in their first two letters, so no pattern takes another's text. */
  lemma NotAnotherCall(a: Atom)
    requires WrittenAtom(a) && (a.Reverse? || a.Replace?)
    ensures var t := PrintAtom(a); t != "" && t[0] != '"' && ChrArgument(t) == None
    ensures a.Replace? ==> CallBody(PrintAtom(a), "strreverse") == None
  {
    hide Print, Parenthesised, TrimLeft, TrimRight;
    var t := PrintAtom(a);
    assert t[0] == a.word[0] && t[1] == a.word[1];
    if a.Reverse? {
      assert FoldsTo(a.word[0], "strreverse"[0]) && !FoldsTo(t[0], "chr"[0]);
    } else {
      assert FoldsTo(a.word[0], "replace"[0]) && !FoldsTo(t[0], "chr"[0]) && !FoldsTo(t[0], "strreverse"[0]);
    }
  }

  lemma FoldReplace(a: Atom)
    requires a.Replace? && WrittenAtom(a)
    ensures FoldOne(PrintAtom(a)) == AtomValue(a)
    decreases AtomSize(a), 1
  {
    hide Call, Print, CallBody, ChrArgument, FoldVB, Value, Written, IsPad, Size, Names, Split, ReplaceAll;
    var src := Stripped(a.src);
    ReplaceName();
    StrippedSame(a.src);
    SizesBelow(a);
    FoldPrinted(src);
    FoldPrinted(a.find);
    FoldPrinted(a.with);
    var rest := "," + (Print(a.find) + "," + Print(a.with));
    PrintLine(a.find);
    PrintLine(a.with);
    CallReads(a.word, a.pad, a.src, rest, "replace");
    assert Print(a.src) + rest == Print(a.src) + "," + (Print(a.find) + "," + Print(a.with));
    ArgumentsSplit(src, a.find, a.with);
    assert Print(src) + rest == Print(src) + "," + (Print(a.find) + "," + Print(a.with));
    NotAnotherCall(a);
  }

  lemma SizesBelow(a: Atom)
    requires a.Replace?
    ensures Size(a.src) < AtomSize(a) && Size(a.find) < AtomSize(a) && Size(a.with) < AtomSize(a)
  {}

  lemma ArgumentsSplit(a: Expr, b: Expr, c: Expr)
    requires Written(a) && Written(b) && Written(c)
    ensures Split(Print(a) + "," + (Print(b) + "," + Print(c)), ',') == Some([Print(a), Print(b), Print(c)])
  {
    hide Split, Print, Written, Join, Scan;
    var ps := [Print(a), Print(b), Print(c)];
    PrintWhole(a);
    PrintWhole(b);
    PrintWhole(c);
    SplitsBoth();
    SplitJoin(ps, ',');
    JoinThree(Print(a), Print(b), Print(c));
  }

  lemma JoinThree(a: string, b: string, c: string)
    ensures Join([a, b, c], ',') == a + "," + (b + "," + c)
  {
    JoinCons(b, [c], ',');
    JoinCons(a, [b, c], ',');
    assert [b] + [c] == [b, c] && [a] + [b, c] == [a, b, c];
  }
}
