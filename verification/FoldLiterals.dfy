/** Folding of joined string literals (shellsight/internal/deobfuscate/fold.go). */
module FoldLiterals {
  // Modelled: `quote`, `unquote`, `foldConcat` and the loop of `Fold`.
  //
  // A literal is single or double quoted with backslash escapes; a pair is two literals around one `.` or `+`.
  // Both patterns leave the matcher no choice, so each is a function of the text that follows. The other
  // rewrites of a pass are parameters.

  type Text = string

  const MAX_FOLD_PASSES: nat := 8
  const MAX_FOLD_INPUT: nat := 0x20_0000

  // ---- the patterns ------------------------------------------------------------------------------------------

  predicate IsQuote(c: char) { c == '\'' || c == '"' }

  predicate IsOperator(c: char) { c == '.' || c == '+' }

  predicate IsBlank(c: char) { c in " \t\n\r" || c as int == 12 }

  function Plus(n: nat, m: nat): nat { if m == 0 then 0 else n + m }

  /** How much of `t` there is up to and with the closing quote, 0 when it does not close. A backslash takes the
      next character with it, but not a line break. */
  function Close(q: char, t: Text): (n: nat)
    ensures n <= |t|
  {
    if t == "" then 0
    else if t[0] == q then 1
    else if t[0] == '\\' then
      if |t| >= 2 && t[1] != '\n' then Plus(2, Close(q, t[2..])) else 0
    else Plus(1, Close(q, t[1..]))
  }

  /** The length of the literal at the start, 0 when there is none. */
  function LiteralLength(s: Text): (n: nat)
    ensures n <= |s| && (n > 0 ==> n >= 2)
  {
    if s == "" || !IsQuote(s[0]) then 0 else Plus(1, Close(s[0], s[1..]))
  }

  function BlankLength(s: Text): (n: nat)
    ensures n <= |s| && forall k :: 0 <= k < n ==> IsBlank(s[k])
    ensures n < |s| ==> !IsBlank(s[n])
  {
    if s == "" || !IsBlank(s[0]) then 0 else 1 + BlankLength(s[1..])
  }

  /** An operator with the blanks around it. */
  function GapLength(s: Text): (n: nat)
    ensures n <= |s|
  {
    var b := BlankLength(s);
    if b == |s| || !IsOperator(s[b]) then 0 else b + 1 + BlankLength(s[b + 1..])
  }

  /** Two literals joined: the lengths of the first, of what is between, and of the second. */
  function Pair(s: Text): (p: (nat, nat, nat))
    ensures p.2 > 0 ==> p.0 >= 2 && p.1 > 0 && p.2 >= 2 && p.0 + p.1 + p.2 <= |s|
  {
    var a := LiteralLength(s);
    if a == 0 then (0, 0, 0)
    else
      var g := GapLength(s[a..]);
      if g == 0 then (0, 0, 0) else (a, g, LiteralLength(s[a + g..]))
  }

  predicate HasPair(s: Text) { Pair(s).2 > 0 }

  predicate IsLiteral(t: Text) { t != "" && LiteralLength(t) == |t| }

  predicate IsGap(g: Text) { g != "" && GapLength(g) == |g| }

  // ---- literals ------------------------------------------------------------------------------------------------

  function Escaped(v: Text): Text {
    if v == "" then "" else (if v[0] == '\\' || v[0] == '\'' then ['\\', v[0]] else [v[0]]) + Escaped(v[1..])
  }

  function Quoted(v: Text): Text { "'" + Escaped(v) + "'" }

  method Quote(v: Text) returns (out: Text)
    ensures out == Quoted(v)
  {
    out := "'";
    for i := 0 to |v|
      invariant out + Escaped(v[i..]) == "'" + Escaped(v)
    {
      assert v[i..][1..] == v[i + 1..];
      if v[i] == '\\' || v[i] == '\'' { out := out + ['\\']; }
      out := out + [v[i]];
    }
    out := out + "'";
  }

  /** The two characters an escape stands for, where it is one. */
  predicate Escape(s: Text) { |s| >= 2 && s[0] == '\\' && s[1] in "\\'\"" }

  function Unescaped(s: Text): Text {
    if s == "" then ""
    else if Escape(s) then [s[1]] + Unescaped(s[2..])
    else [s[0]] + Unescaped(s[1..])
  }

  function Unquoted(t: Text): Text {
    if |t| < 2 then "" else Unescaped(t[1..|t| - 1])
  }

  lemma UnescapedAt(body: Text, i: nat)
    requires i < |body|
    ensures i + 1 < |body| && body[i] == '\\' && (body[i + 1] == '\\' || body[i + 1] == '\'' || body[i + 1] == '"') ==>
              Unescaped(body[i..]) == [body[i + 1]] + Unescaped(body[i + 2..])
    ensures !(i + 1 < |body| && body[i] == '\\' && (body[i + 1] == '\\' || body[i + 1] == '\'' || body[i + 1] == '"')) ==>
              Unescaped(body[i..]) == [body[i]] + Unescaped(body[i + 1..])
  {
    assert body[i..][1..] == body[i + 1..] && (i + 1 < |body| ==> body[i..][2..] == body[i + 2..]);
  }

  method Unquote(t: Text) returns (out: Text)
    ensures out == Unquoted(t)
  {
    hide Unescaped;
    if |t| < 2 { return ""; }
    var body := t[1..|t| - 1];
    out := "";
    var i := 0;
    while i < |body|
      invariant 0 <= i <= |body| && out + Unescaped(body[i..]) == Unescaped(body)
    {
      UnescapedAt(body, i);
      if body[i] == '\\' && i + 1 < |body| && (body[i + 1] == '\\' || body[i + 1] == '\'' || body[i + 1] == '"') {
        i := i + 1;
      }
      out := out + [body[i]];
      i := i + 1;
    }
    UnescapedEnd(body[|body|..]);
  }

  lemma UnescapedEnd(s: Text)
    requires s == ""
    ensures Unescaped(s) == ""
  {}

  lemma {:induction false} UnescapedEscaped(v: Text)
    ensures Unescaped(Escaped(v)) == v
  {
    if v != "" {
      var rest := Escaped(v[1..]);
      UnescapedEscaped(v[1..]);
      if v[0] == '\\' || v[0] == '\'' {
        assert Escaped(v)[2..] == rest;
      } else {
        assert Escaped(v)[1..] == rest;
      }
      assert [v[0]] + v[1..] == v;
    }
  }

  /** Reading a quoted value gives the value back. */
  lemma UnquoteQuote(v: Text)
    ensures Unquoted(Quoted(v)) == v
  {
    assert Quoted(v)[1..|Quoted(v)| - 1] == Escaped(v);
    UnescapedEscaped(v);
  }

  lemma {:induction false} CloseEscaped(v: Text, rest: Text)
    ensures Close('\'', Escaped(v) + "'" + rest) == |Escaped(v)| + 1
  {
    var t := Escaped(v) + "'" + rest;
    if v != "" {
      var head := |Escaped(v)| - |Escaped(v[1..])|;
      CloseEscaped(v[1..], rest);
      assert t[head..] == Escaped(v[1..]) + "'" + rest;
    }
  }

  /** What quoting writes is one literal, whatever follows it. */
  lemma QuotedIsLiteral(v: Text, rest: Text)
    ensures LiteralLength(Quoted(v) + rest) == |Quoted(v)| && IsLiteral(Quoted(v))
  {
    CloseEscaped(v, rest);
    assert (Quoted(v) + rest)[1..] == Escaped(v) + "'" + rest;
    CloseEscaped(v, "");
    assert Quoted(v)[1..] == Escaped(v) + "'" + "";
  }

  lemma {:induction false} CloseExtends(q: char, t: Text, rest: Text)
    requires Close(q, t) > 0
    ensures Close(q, t + rest) == Close(q, t)
  {
    if t[0] != q {
      if t[0] == '\\' {
        assert (t + rest)[2..] == t[2..] + rest;
        CloseExtends(q, t[2..], rest);
      } else {
        assert (t + rest)[1..] == t[1..] + rest;
        CloseExtends(q, t[1..], rest);
      }
    }
  }

  lemma LiteralExtends(t: Text, rest: Text)
    requires IsLiteral(t)
    ensures LiteralLength(t + rest) == |t| && |t| >= 2 && IsQuote((t + rest)[0])
  {
    assert (t + rest)[1..] == t[1..] + rest;
    CloseExtends(t[0], t[1..], rest);
  }

  // ---- what a literal and a gap are ----------------------------------------------------------------------------------

  /** One character of a literal in `q` quotes as it is written: any but the quote and the backslash, or a backslash
      with what it escapes, which is not a line break. */
  predicate IsUnit(q: char, u: Text) {
    || (|u| == 1 && u[0] != q && u[0] != '\\')
    || (|u| == 2 && u[0] == '\\' && u[1] != '\n')
  }

  function Written(us: seq<Text>): Text { if us == [] then "" else us[0] + Written(us[1..]) }

  /** An escaped backslash or quote of either kind stands for itself; every other unit is kept as written. */
  function Meant(us: seq<Text>): Text {
    if us == [] then ""
    else (if us[0] in ["\\\\", "\\'", "\\\""] then us[0][1..] else us[0]) + Meant(us[1..])
  }

  ghost predicate Literal(t: Text, q: char, us: seq<Text>) {
    && (q == '\'' || q == '"') && t == [q] + Written(us) + [q]
    && forall i :: 0 <= i < |us| ==> IsUnit(q, us[i])
  }

  lemma {:induction false} UnitsClose(q: char, us: seq<Text>, rest: Text)
    requires IsQuote(q) && forall i :: 0 <= i < |us| ==> IsUnit(q, us[i])
    ensures Close(q, Written(us) + ([q] + rest)) == |Written(us)| + 1
  {
    if us == [] {
      assert "" + ([q] + rest) == [q] + rest;
    } else {
      var t, more := Written(us) + ([q] + rest), Written(us[1..]) + ([q] + rest);
      UnitsClose(q, us[1..], rest);
      assert t == us[0] + more;
      assert t[|us[0]|..] == more;
    }
  }

  lemma {:induction false} ClosedIsUnits(q: char, t: Text) returns (us: seq<Text>)
    requires IsQuote(q) && Close(q, t) == |t| && t != ""
    ensures t == Written(us) + [q] && forall i :: 0 <= i < |us| ==> IsUnit(q, us[i])
    decreases |t|
  {
    if t[0] == q {
      us := [];
      assert t == "" + [q];
    } else {
      var n := if t[0] == '\\' then 2 else 1;
      var more := ClosedIsUnits(q, t[n..]);
      us := [t[..n]] + more;
      assert us[1..] == more && t == t[..n] + t[n..];
      assert t[..n] + (Written(more) + [q]) == Written(us) + [q];
    }
  }

  /** A text is one literal exactly when it is quoted units, in quotes of either kind. */
  lemma LiteralIff(t: Text)
    ensures IsLiteral(t) <==> exists q, us :: Literal(t, q, us)
  {
    hide Close;
    if IsLiteral(t) {
      assert t == [t[0]] + t[1..];
      var us := ClosedIsUnits(t[0], t[1..]);
      assert t == [t[0]] + Written(us) + [t[0]];
      assert Literal(t, t[0], us);
    }
    if q, us :| Literal(t, q, us) {
      UnitsClose(q, us, "");
      assert t[1..] == Written(us) + ([q] + "");
    }
  }

  lemma {:induction false} UnitsMean(q: char, us: seq<Text>)
    requires IsQuote(q) && forall i :: 0 <= i < |us| ==> IsUnit(q, us[i])
    ensures Unescaped(Written(us)) == Meant(us)
  {
    if us != [] {
      var u, t, more := us[0], Written(us), Written(us[1..]);
      UnitsMean(q, us[1..]);
      assert t == u + more && t[|u|..] == more && t[0] == u[0];
      if |u| == 2 {
        assert t[1] == u[1] && t[1..] == u[1..] + more && u[1..] == [u[1]];
        UnitKept(u, more);
      }
    }
  }

  lemma UnitKept(u: Text, more: Text)
    requires |u| == 2 && u[0] == '\\'
    ensures Unescaped(u + more) == (if u in ["\\\\", "\\'", "\\\""] then u[1..] else u) + Unescaped(more)
  {
    var t := u + more;
    assert t[2..] == more && t[1..] == [u[1]] + more && t[1..][1..] == more;
    assert u == [u[0], u[1]] && u[1..] == [u[1]];
    if !Escape(t) {
      assert !Escape(t[1..]);
      assert [u[0]] + ([u[1]] + Unescaped(more)) == u + Unescaped(more);
    }
  }

  /** Reading a literal gives what its units mean. */
  lemma UnquotedIs(t: Text, q: char, us: seq<Text>)
    requires Literal(t, q, us)
    ensures Unquoted(t) == Meant(us)
  {
    assert t[1..|t| - 1] == Written(us);
    UnitsMean(q, us);
  }

  /** A gap is one dot or plus with any white space around it. */
  lemma GapIff(g: Text)
    ensures IsGap(g) <==> exists a, c, b :: Gap(g, a, c, b)
  {
    hide IsGap, Gap;
    if IsGap(g) { var a, c, b := GapParts(g); }
    if a, c, b :| Gap(g, a, c, b) { PartsAreGap(g, a, c, b); }
  }

  lemma GapParts(g: Text) returns (a: Text, c: char, b: Text)
    requires IsGap(g)
    ensures Gap(g, a, c, b)
  {
    var n := BlankLength(g);
    a, c, b := g[..n], g[n], g[n + 1..];
    assert g == a + [c] + b;
  }

  lemma PartsAreGap(g: Text, a: Text, c: char, b: Text)
    requires Gap(g, a, c, b)
    ensures IsGap(g)
  {
    hide BlankLength, AllBlank;
    BlankIsAll(b, "");
    BlankIsAll(a, [c] + b);
    assert g == a + ([c] + b) && g[|a|] == c && g[|a| + 1..] == b && b + "" == b;
  }

  predicate Gap(g: Text, a: Text, c: char, b: Text) {
    && g == a + [c] + b && (c == '.' || c == '+')
    && AllBlank(a) && AllBlank(b)
  }

  predicate AllBlank(s: Text) { forall k :: 0 <= k < |s| ==> s[k] in [' ', '\t', '\n', '\r', 12 as char] }

  lemma {:induction false} BlankIsAll(a: Text, rest: Text)
    requires AllBlank(a) && (rest == "" || rest[0] == '.' || rest[0] == '+')
    ensures BlankLength(a + rest) == |a|
  {
    if a == "" {
      assert a + rest == rest;
    } else {
      assert (a + rest)[1..] == a[1..] + rest;
      BlankIsAll(a[1..], rest);
    }
  }

  // ---- one pass ---------------------------------------------------------------------------------------------------

  /** Every pair, leftmost first, becomes one literal. */
  function FoldConcat(s: Text): Text
    decreases |s|
  {
    if s == "" then ""
    else if HasPair(s) then Joined(s) + FoldConcat(s[PairLength(s)..])
    else [s[0]] + FoldConcat(s[1..])
  }

  function PairLength(s: Text): (n: nat)
    requires HasPair(s)
    ensures 0 < n <= |s|
  {
    Pair(s).0 + Pair(s).1 + Pair(s).2
  }

  function Joined(s: Text): Text
    requires HasPair(s)
  {
    var (a, g, b) := Pair(s);
    Quoted(Unquoted(s[..a]) + Unquoted(s[a + g..a + g + b]))
  }

  /** Literals with an operator between each two. */
  function Chain(ts: seq<Text>, gs: seq<Text>): Text
    requires ts != [] && |gs| == |ts| - 1
  {
    if |ts| == 1 then ts[0] else ts[0] + (gs[0] + Chain(ts[1..], gs[1..]))
  }

  ghost predicate IsChain(ts: seq<Text>, gs: seq<Text>) {
    && ts != [] && |gs| == |ts| - 1
    && (forall i :: 0 <= i < |ts| ==> IsLiteral(ts[i])) && (forall i :: 0 <= i < |gs| ==> IsGap(gs[i]))
  }

  /** The string the literals denote. */
  function Denoted(ts: seq<Text>): Text {
    if ts == [] then "" else Unquoted(ts[0]) + Denoted(ts[1..])
  }

  /** The literals joined two by two, from the left. */
  function Halved(ts: seq<Text>): (r: seq<Text>)
    ensures |r| == (|ts| + 1) / 2
  {
    if |ts| <= 1 then ts else [Quoted(Unquoted(ts[0]) + Unquoted(ts[1]))] + Halved(ts[2..])
  }

  function HalvedGaps(gs: seq<Text>): (r: seq<Text>)
    ensures |r| == |gs| / 2
  {
    if |gs| <= 1 then [] else [gs[1]] + HalvedGaps(gs[2..])
  }

  ghost predicate NoPair(s: Text) {
    forall i :: 0 <= i < |s| ==> !HasPair(s[i..])
  }

  lemma {:induction false} BlankExtends(s: Text, rest: Text)
    requires BlankLength(s) < |s| || (rest != "" && !IsBlank(rest[0]))
    ensures BlankLength(s + rest) == BlankLength(s)
  {
    if s == "" {
      assert s + rest == rest;
    } else if IsBlank(s[0]) {
      assert (s + rest)[1..] == s[1..] + rest;
      BlankExtends(s[1..], rest);
    }
  }

  lemma GapExtends(g: Text, t: Text)
    requires IsGap(g) && t != "" && IsQuote(t[0])
    ensures GapLength(g + t) == |g| && |g| > 0
  {
    hide BlankLength;
    var b := BlankLength(g);
    BlankExtends(g, t);
    DropBefore(g, t, b + 1);
    BlankExtends(g[b + 1..], t);
  }

  lemma PairOf(a: Text, g: Text, b: Text, rest: Text)
    requires IsLiteral(a) && IsGap(g) && IsLiteral(b)
    ensures Pair(a + (g + (b + rest))) == (|a|, |g|, |b|)
  {
    hide LiteralLength, GapLength, IsLiteral, IsGap;
    LiteralExtends(a, g + (b + rest));
    LiteralExtends(b, rest);
    GapExtends(g, b + rest);
    Tails(a, g, b + rest);
  }

  lemma Tails(a: Text, g: Text, rest: Text)
    ensures (a + (g + rest))[|a|..] == g + rest && (a + (g + rest))[|a| + |g|..] == rest
  {}

  lemma FoldPair(a: Text, g: Text, b: Text, rest: Text)
    requires IsLiteral(a) && IsGap(g) && IsLiteral(b)
    ensures FoldConcat(a + (g + (b + rest))) == Quoted(Unquoted(a) + Unquoted(b)) + FoldConcat(rest)
  {
    hide Pair, Quoted, Unquoted, IsLiteral, IsGap, FoldConcat;
    var s := a + (g + (b + rest));
    PairOf(a, g, b, rest);
    PartsOf(a, g, b, rest);
    FoldStep(s);
    NotEmpty(b);
  }

  lemma NotEmpty(t: Text)
    requires IsLiteral(t)
    ensures |t| > 0
  {}

  lemma PartsOf(a: Text, g: Text, b: Text, rest: Text)
    ensures var s := a + (g + (b + rest));
            && s[..|a|] == a && s[|a| + |g|..|a| + |g| + |b|] == b && s[|a| + |g| + |b|..] == rest
  {}

  lemma FoldStep(s: Text)
    ensures HasPair(s) ==> FoldConcat(s) == Joined(s) + FoldConcat(s[PairLength(s)..])
    ensures s != "" && !HasPair(s) ==> FoldConcat(s) == [s[0]] + FoldConcat(s[1..])
  {
    hide Joined;
  }

  lemma NoQuoteNoPair(s: Text)
    requires s != "" && !IsQuote(s[0])
    ensures !HasPair(s)
  {}

  /** Text without quotes holds no pair and is passed over. */
  lemma {:induction false} FoldPlain(x: Text, rest: Text)
    requires forall k :: 0 <= k < |x| ==> !IsQuote(x[k])
    ensures FoldConcat(x + rest) == x + FoldConcat(rest)
  {
    hide HasPair, FoldConcat;
    if x == "" {
      assert x + rest == rest;
    } else {
      assert (x + rest)[1..] == x[1..] + rest;
      FoldPlain(x[1..], rest);
      NoQuoteNoPair(x + rest);
      FoldStep(x + rest);
      assert [x[0]] + (x[1..] + FoldConcat(rest)) == x + FoldConcat(rest);
    }
  }

  lemma GapPlain(g: Text)
    requires IsGap(g)
    ensures forall k :: 0 <= k < |g| ==> !IsQuote(g[k])
  {
    var b := BlankLength(g);
    forall k | 0 <= k < |g| ensures !IsQuote(g[k]) {
      if k > b { assert g[k] == g[b + 1..][k - b - 1]; }
    }
  }

  lemma {:induction false} ChainCut(ts: seq<Text>, gs: seq<Text>)
    requires IsChain(ts, gs) && |ts| >= 3
    ensures IsChain(ts[2..], gs[2..])
    ensures Chain(ts, gs) == ts[0] + (gs[0] + (ts[1] + (gs[1] + Chain(ts[2..], gs[2..]))))
  {
    assert ts[1..][0] == ts[1] && gs[1..][0] == gs[1] && ts[1..][1..] == ts[2..] && gs[1..][1..] == gs[2..];
  }

  lemma Cancel(a: Text, x: Text, y: Text)
    ensures a + x == a + y <==> x == y
  {
    assert (a + x)[|a|..] == x && (a + y)[|a|..] == y;
  }

  /** One pass turns k joined literals into half as many, rounded up, exactly when k is even or the odd last
      literal holds no pair of its own. */
  lemma {:induction false} OnePassHalvesIff(ts: seq<Text>, gs: seq<Text>)
    requires IsChain(ts, gs)
    ensures FoldConcat(Chain(ts, gs)) == Chain(Halved(ts), HalvedGaps(gs))
            <==> |ts| % 2 == 0 || NoPair(ts[|ts| - 1])
    decreases |ts|
  {
    hide FoldConcat, Quoted, Unquoted, IsLiteral, IsGap, NoPair, Chain, Halved, HalvedGaps;
    if |ts| == 1 {
      OneIsHalved(ts, gs);
      FixedIffNoPair(ts[0]);
    } else if |ts| == 2 {
      TwoFold(ts, gs);
    } else {
      ChainCut(ts, gs);
      OnePassHalvesIff(ts[2..], gs[2..]);
      FirstTwoFold(ts, gs);
      assert ts[2..][|ts| - 3] == ts[|ts| - 1];
    }
  }

  lemma OneIsHalved(ts: seq<Text>, gs: seq<Text>)
    requires |ts| == 1 && gs == []
    ensures Chain(ts, gs) == ts[0] && Chain(Halved(ts), HalvedGaps(gs)) == ts[0]
  {}

  lemma TwoFold(ts: seq<Text>, gs: seq<Text>)
    requires IsChain(ts, gs) && |ts| == 2
    ensures FoldConcat(Chain(ts, gs)) == Chain(Halved(ts), HalvedGaps(gs))
  {
    hide FoldConcat, Quoted, Unquoted, IsLiteral, IsGap;
    FoldPair(ts[0], gs[0], ts[1], "");
    FoldNothing();
    TwoChain(ts, gs);
  }

  lemma TwoChain(ts: seq<Text>, gs: seq<Text>)
    requires |ts| == 2 && |gs| == 1
    ensures Chain(ts, gs) == ts[0] + (gs[0] + (ts[1] + ""))
    ensures Chain(Halved(ts), HalvedGaps(gs)) == Quoted(Unquoted(ts[0]) + Unquoted(ts[1])) + ""
  {
    hide Quoted, Unquoted;
    assert ts[1] + "" == ts[1] && Halved(ts[2..]) == [] && ts[1..][0] == ts[1];
  }

  /** The first two literals fold by themselves: the rest decides. */
  lemma FirstTwoFold(ts: seq<Text>, gs: seq<Text>)
    requires IsChain(ts, gs) && |ts| >= 3 && IsChain(ts[2..], gs[2..])
    ensures FoldConcat(Chain(ts, gs)) == Chain(Halved(ts), HalvedGaps(gs))
            <==> FoldConcat(Chain(ts[2..], gs[2..])) == Chain(Halved(ts[2..]), HalvedGaps(gs[2..]))
  {
    hide FoldConcat, Quoted, Unquoted, IsLiteral, IsGap, Chain, Halved, HalvedGaps;
    var first := Quoted(Unquoted(ts[0]) + Unquoted(ts[1]));
    var rest := Chain(ts[2..], gs[2..]);
    ChainCut(ts, gs);
    FoldPair(ts[0], gs[0], ts[1], gs[1] + rest);
    GapPlain(gs[1]);
    FoldPlain(gs[1], rest);
    HalvedChain(ts, gs);
    Cancel(gs[1], FoldConcat(rest), Chain(Halved(ts[2..]), HalvedGaps(gs[2..])));
    Cancel(first, gs[1] + FoldConcat(rest), gs[1] + Chain(Halved(ts[2..]), HalvedGaps(gs[2..])));
  }

  lemma FoldNothing() ensures FoldConcat("") == "" {}

  lemma HalvedChain(ts: seq<Text>, gs: seq<Text>)
    requires ts != [] && |gs| == |ts| - 1 && |ts| >= 3
    ensures Chain(Halved(ts), HalvedGaps(gs))
            == Quoted(Unquoted(ts[0]) + Unquoted(ts[1])) + (gs[1] + Chain(Halved(ts[2..]), HalvedGaps(gs[2..])))
  {
    hide Quoted, Unquoted;
    assert Halved(ts)[1..] == Halved(ts[2..]) && HalvedGaps(gs)[1..] == HalvedGaps(gs[2..]);
  }

  lemma {:induction false} HalvedIsChain(ts: seq<Text>, gs: seq<Text>)
    requires IsChain(ts, gs)
    ensures IsChain(Halved(ts), HalvedGaps(gs))
    decreases |ts|
  {
    hide Quoted, Unquoted, IsLiteral, IsGap;
    if |ts| >= 2 {
      QuotedIsLiteral(Unquoted(ts[0]) + Unquoted(ts[1]), "");
      if |ts| >= 3 { HalvedIsChain(ts[2..], gs[2..]); }
    }
  }

  /** Joining does not change what the literals denote. */
  lemma {:induction false} HalvedDenotes(ts: seq<Text>)
    ensures Denoted(Halved(ts)) == Denoted(ts)
    decreases |ts|
  {
    hide Quoted, Unquoted;
    if |ts| >= 2 {
      var v := Unquoted(ts[0]) + Unquoted(ts[1]);
      HalvedDenotes(ts[2..]);
      UnquoteQuote(v);
      assert Halved(ts)[1..] == Halved(ts[2..]) && ts[1..][1..] == ts[2..] && ts[1..][0] == ts[1];
      assert v + Denoted(ts[2..]) == Unquoted(ts[0]) + (Unquoted(ts[1]) + Denoted(ts[2..]));
    }
  }

  // ---- when a pass changes nothing --------------------------------------------------------------------------------

  function Operators(s: Text): nat {
    if s == "" then 0 else (if IsOperator(s[0]) then 1 else 0) + Operators(s[1..])
  }

  function PairCount(s: Text): nat
    decreases |s|
  {
    if s == "" then 0 else if HasPair(s) then 1 + PairCount(s[PairLength(s)..]) else PairCount(s[1..])
  }

  lemma {:induction false} OperatorsConcat(a: Text, b: Text)
    ensures Operators(a + b) == Operators(a) + Operators(b)
  {
    if a == "" {
      assert a + b == b;
    } else {
      assert (a + b)[1..] == a[1..] + b;
      OperatorsConcat(a[1..], b);
    }
  }

  lemma {:induction false} OperatorsEscaped(v: Text)
    ensures Operators(Escaped(v)) == Operators(v)
  {
    if v != "" {
      OperatorsEscaped(v[1..]);
      var head := if v[0] == '\\' || v[0] == '\'' then ['\\', v[0]] else [v[0]];
      OperatorsConcat(head, Escaped(v[1..]));
      assert head[1..] == (if |head| == 2 then [v[0]] else "") && [v[0]][1..] == "";
    }
  }

  lemma OperatorsQuoted(v: Text)
    ensures Operators(Quoted(v)) == Operators(v)
  {
    OperatorsEscaped(v);
    OperatorsConcat("'" + Escaped(v), "'");
    OperatorsConcat("'", Escaped(v));
    assert ("'")[1..] == "";
  }

  lemma {:induction false} OperatorsUnescaped(s: Text)
    ensures Operators(Unescaped(s)) == Operators(s)
    decreases |s|
  {
    if s != "" {
      if Escape(s) {
        OperatorsUnescaped(s[2..]);
        assert s[1..][1..] == s[2..] && Unescaped(s)[1..] == Unescaped(s[2..]);
      } else {
        OperatorsUnescaped(s[1..]);
        assert Unescaped(s)[1..] == Unescaped(s[1..]);
      }
    }
  }

  lemma OperatorsUnquoted(t: Text)
    requires |t| >= 2 && IsQuote(t[0]) && IsQuote(t[|t| - 1])
    ensures Operators(Unquoted(t)) == Operators(t)
  {
    var body := t[1..|t| - 1];
    OperatorsUnescaped(body);
    var last := [t[|t| - 1]];
    assert t == [t[0]] + body + last;
    OperatorsConcat([t[0]] + body, last);
    OperatorsConcat([t[0]], body);
    assert [t[0]][1..] == "" && last[1..] == "";
  }

  lemma {:induction false} ClosesOnQuote(q: char, t: Text)
    requires Close(q, t) > 0
    ensures t[Close(q, t) - 1] == q
  {
    if t[0] != q {
      if t[0] == '\\' { ClosesOnQuote(q, t[2..]); } else { ClosesOnQuote(q, t[1..]); }
    }
  }

  lemma LiteralEnds(s: Text)
    requires LiteralLength(s) > 0
    ensures IsQuote(s[0]) && IsQuote(s[LiteralLength(s) - 1])
  {
    ClosesOnQuote(s[0], s[1..]);
  }

  lemma {:induction false} OperatorsBlank(s: Text)
    requires forall k :: 0 <= k < |s| ==> IsBlank(s[k])
    ensures Operators(s) == 0
  {
    if s != "" { OperatorsBlank(s[1..]); }
  }

  lemma OperatorsGap(s: Text)
    requires GapLength(s) > 0
    ensures Operators(s[..GapLength(s)]) == 1
  {
    var b, g := BlankLength(s), s[..GapLength(s)];
    var after := s[b + 1..GapLength(s)];
    assert g == s[..b] + [s[b]] + after;
    OperatorsConcat(s[..b] + [s[b]], after);
    OperatorsConcat(s[..b], [s[b]]);
    OperatorsBlank(s[..b]);
    assert forall k :: 0 <= k < |after| ==> after[k] == s[b + 1..][k];
    OperatorsBlank(after);
    assert [s[b]][1..] == "";
  }

  /** Joining a pair costs exactly the operator between the literals. */
  lemma OperatorsJoined(s: Text)
    requires HasPair(s)
    ensures Operators(s[..PairLength(s)]) == Operators(Joined(s)) + 1
  {
    hide Quoted, Unquoted, LiteralLength, GapLength;
    var (a, g, b) := Pair(s);
    var x, gap, y := s[..a], s[a..a + g], s[a + g..a + g + b];
    assert s[..PairLength(s)] == x + gap + y;
    OperatorsConcat(x + gap, y);
    OperatorsConcat(x, gap);
    LiteralEnds(s);
    LiteralEnds(s[a + g..]);
    assert y == s[a + g..][..b] && |x| == a && |y| == b;
    OperatorsGap(s[a..]);
    assert s[a..][..g] == gap;
    OperatorsUnquoted(x);
    OperatorsUnquoted(y);
    OperatorsQuoted(Unquoted(x) + Unquoted(y));
    OperatorsConcat(Unquoted(x), Unquoted(y));
  }

  /** A pass removes one operator for each pair it joins, and no other. */
  lemma {:induction false} OperatorsFolded(s: Text)
    ensures Operators(s) == Operators(FoldConcat(s)) + PairCount(s)
    decreases |s|
  {
    hide HasPair, Joined, FoldConcat, Operators, PairCount;
    FoldStep(s);
    CountStep(s);
    if s == "" {
      FoldNothing();
    } else if HasPair(s) {
      var n := PairLength(s);
      OperatorsFolded(s[n..]);
      OperatorsJoined(s);
      assert s == s[..n] + s[n..];
      OperatorsConcat(s[..n], s[n..]);
      OperatorsConcat(Joined(s), FoldConcat(s[n..]));
    } else {
      OperatorsFolded(s[1..]);
      OperatorsConcat([s[0]], FoldConcat(s[1..]));
      OperatorsConcat([s[0]], s[1..]);
      assert [s[0]] + s[1..] == s;
    }
  }

  lemma CountStep(s: Text)
    ensures HasPair(s) ==> PairCount(s) == 1 + PairCount(s[PairLength(s)..])
    ensures s != "" && !HasPair(s) ==> PairCount(s) == PairCount(s[1..])
    ensures s == "" ==> PairCount(s) == 0
  {}

  lemma {:induction false} NoPairIsFixed(s: Text)
    requires NoPair(s)
    ensures FoldConcat(s) == s && PairCount(s) == 0
  {
    hide HasPair;
    if s != "" {
      assert s[0..] == s;
      forall i | 0 <= i < |s| - 1 ensures !HasPair(s[1..][i..]) { assert s[1..][i..] == s[i + 1..]; }
      NoPairIsFixed(s[1..]);
    }
  }

  lemma {:induction false} NoPairsCounted(s: Text)
    requires PairCount(s) == 0
    ensures NoPair(s)
  {
    hide HasPair;
    if s != "" {
      NoPairsCounted(s[1..]);
      forall i | 0 <= i < |s| ensures !HasPair(s[i..]) {
        if i == 0 { assert s[0..] == s; } else { assert s[i..] == s[1..][i - 1..]; }
      }
    }
  }

  /** A pass leaves a text alone exactly when no pair starts anywhere in it. */
  lemma FixedIffNoPair(s: Text)
    ensures FoldConcat(s) == s <==> NoPair(s)
  {
    hide FoldConcat, PairCount, NoPair, Operators;
    OperatorsFolded(s);
    if FoldConcat(s) == s { NoPairsCounted(s); }
    if NoPair(s) { NoPairIsFixed(s); }
  }

  /** One literal with a pair inside: the pass rewrites the inside of the literal. */
  lemma InsideOfALiteralIsFolded()
    ensures var t := "'\"a\".\"b\"'"; IsChain([t], []) && FoldConcat(t) != t
  {
    hide LiteralLength, GapLength, Escaped, Pair, FoldConcat;
    var v := "\"a\".\"b\"";
    var a, b := "\"a\"", "\"b\"";
    QuotedIsLiteral(v, "");
    EscapedPlain(v);
    DoubleQuoted('a');
    DoubleQuoted('b');
    GapDot();
    PairOf(a, ".", b, "'");
    assert Quoted(v) == "'" + v + "'";
    assert Quoted(v)[1..] == a + ("." + (b + "'"));
    assert HasPair(Quoted(v)[1..]);
    var t := "'\"a\".\"b\"'";
    assert t == "'" + v + "'" == Quoted(v);
    FixedIffNoPair(t);
  }

  lemma {:induction false} EscapedPlain(v: Text)
    requires forall k :: 0 <= k < |v| ==> v[k] != '\\' && v[k] != '\''
    ensures Escaped(v) == v
  {
    if v != "" { EscapedPlain(v[1..]); }
  }

  lemma DoubleQuoted(c: char)
    requires c != '"' && c != '\\'
    ensures IsLiteral(['"', c, '"'])
  {
    var t := ['"', c, '"'];
    assert t[1..] == [c, '"'] && [c, '"'][1..] == ['"'];
    assert Close('"', ['"']) == 1;
    assert Close('"', [c, '"']) == 2;
  }

  lemma GapDot() ensures IsGap(".") {
    assert (".")[1..] == "";
  }

  // ---- passes ------------------------------------------------------------------------------------------------------

  function Iterated(pass: Text -> Text, s: Text, n: nat): Text
    decreases n
  {
    if n == 0 then s else Iterated(pass, pass(s), n - 1)
  }

  lemma {:induction false} IteratedFixed(pass: Text -> Text, s: Text, n: nat)
    requires pass(s) == s
    ensures Iterated(pass, s, n) == s
  {
    if n > 0 { IteratedFixed(pass, s, n - 1); }
  }

  /** The loop stops early only when another pass would change nothing. */
  method Fold(src: Text, marked: bool, pass: Text -> Text) returns (r: Text)
    ensures r == if src == "" || |src| > MAX_FOLD_INPUT || !marked then src else Iterated(pass, src, MAX_FOLD_PASSES)
  {
    if |src| == 0 || |src| > MAX_FOLD_INPUT || !marked { return src; }
    var cur := src;
    for i := 0 to MAX_FOLD_PASSES
      invariant Iterated(pass, cur, MAX_FOLD_PASSES - i) == Iterated(pass, src, MAX_FOLD_PASSES)
    {
      var next := pass(cur);
      if next == cur {
        IteratedFixed(pass, cur, MAX_FOLD_PASSES - i);
        break;
      }
      cur := next;
    }
    return cur;
  }

  function PowerOfTwo(n: nat): (p: nat)
    ensures p > 0
  {
    if n == 0 then 1 else 2 * PowerOfTwo(n - 1)
  }

  /** At no stage is there an odd last literal with a pair inside. */
  ghost predicate StagesClean(ts: seq<Text>, n: nat)
    decreases n
  {
    n > 0 ==> (|ts| % 2 == 0 || (ts != [] && NoPair(ts[|ts| - 1]))) && StagesClean(Halved(ts), n - 1)
  }

  /** Where the stages are clean, n passes leave the joined literals joined n times over. */
  lemma {:induction false} CleanStagesCollapse(ts: seq<Text>, gs: seq<Text>, n: nat)
    requires IsChain(ts, gs) && StagesClean(ts, n)
    ensures var r := Iterated(FoldConcat, Chain(ts, gs), n);
            && (|ts| <= PowerOfTwo(n) ==> IsLiteral(r) && Unquoted(r) == Denoted(ts))
            && (|ts| > PowerOfTwo(n) ==> !IsLiteral(r))
    decreases n
  {
    hide FoldConcat, Quoted, Unquoted, IsLiteral, IsGap, NoPair, Halved, HalvedGaps, Chain, Denoted;
    if n == 0 {
      ChainIsLiteralIff(ts, gs);
      if |ts| == 1 { OneDenotes(ts, gs); }
    } else {
      OnePassHalvesIff(ts, gs);
      HalvedIsChain(ts, gs);
      HalvedDenotes(ts);
      CleanStagesCollapse(Halved(ts), HalvedGaps(gs), n - 1);
    }
  }

  lemma OneDenotes(ts: seq<Text>, gs: seq<Text>)
    requires IsChain(ts, gs) && |ts| == 1
    ensures Denoted(ts) == Unquoted(ts[0]) && Chain(ts, gs) == ts[0]
  {
    hide Unquoted;
    assert ts[1..] == [];
    assert Unquoted(ts[0]) + "" == Unquoted(ts[0]);
  }

  lemma ChainIsLiteralIff(ts: seq<Text>, gs: seq<Text>)
    requires IsChain(ts, gs)
    ensures IsLiteral(Chain(ts, gs)) <==> |ts| == 1
  {
    if |ts| > 1 { LongerIsNoLiteral(ts[0], gs[0] + Chain(ts[1..], gs[1..])); }
  }

  lemma LongerIsNoLiteral(t: Text, rest: Text)
    requires IsLiteral(t) && rest != ""
    ensures !IsLiteral(t + rest)
  {
    LiteralExtends(t, rest);
  }

  // ---- joined literals before other text -----------------------------------------------------------------------------

  lemma {:induction false} DenotedSnoc(ts: seq<Text>, t: Text)
    ensures Denoted(ts + [t]) == Denoted(ts) + Unquoted(t)
  {
    hide Unquoted;
    if ts == [] {
      assert ts + [t] == [t] && [t][1..] == [];
      assert Unquoted(t) + "" == Unquoted(t) == "" + Unquoted(t);
    } else {
      assert (ts + [t])[1..] == ts[1..] + [t];
      DenotedSnoc(ts[1..], t);
    }
  }

  lemma {:induction false} ChainSnoc(ts: seq<Text>, gs: seq<Text>, g: Text, t: Text)
    requires IsChain(ts, gs) && IsGap(g) && IsLiteral(t)
    ensures IsChain(ts + [t], gs + [g]) && Chain(ts + [t], gs + [g]) == Chain(ts, gs) + (g + t)
  {
    hide IsGap, IsLiteral;
    if |ts| == 1 {
      assert (ts + [t])[1..] == [t] && (gs + [g])[1..] == [] && gs + [g] == [g];
    } else {
      assert (ts + [t])[1..] == ts[1..] + [t] && (gs + [g])[1..] == gs[1..] + [g];
      ChainSnoc(ts[1..], gs[1..], g, t);
      assert ts[0] + (gs[0] + (Chain(ts[1..], gs[1..]) + (g + t))) == Chain(ts, gs) + (g + t);
    }
  }

  /** An even number of joined literals folds by itself, whatever follows. */
  lemma {:induction false} EvenFolds(ts: seq<Text>, gs: seq<Text>, rest: Text)
    requires IsChain(ts, gs) && |ts| % 2 == 0
    ensures FoldConcat(Chain(ts, gs) + rest) == Chain(Halved(ts), HalvedGaps(gs)) + FoldConcat(rest)
    decreases |ts|
  {
    hide FoldConcat, Quoted, Unquoted, IsLiteral, IsGap, Chain, Halved, HalvedGaps;
    var first := Quoted(Unquoted(ts[0]) + Unquoted(ts[1]));
    if |ts| == 2 {
      TwoChain(ts, gs);
      assert Chain(ts, gs) + rest == ts[0] + (gs[0] + (ts[1] + rest));
      FoldPair(ts[0], gs[0], ts[1], rest);
      assert first + "" == first;
    } else {
      ChainCut(ts, gs);
      EvenFolds(ts[2..], gs[2..], rest);
      var more := Chain(ts[2..], gs[2..]);
      Reassociate(ts[0], gs[0], ts[1], gs[1], more, rest);
      FoldPair(ts[0], gs[0], ts[1], gs[1] + (more + rest));
      GapPlain(gs[1]);
      FoldPlain(gs[1], more + rest);
      HalvedChain(ts, gs);
      var halved, end := Chain(Halved(ts[2..]), HalvedGaps(gs[2..])), FoldConcat(rest);
      assert first + (gs[1] + (halved + end)) == (first + (gs[1] + halved)) + end;
    }
  }

  lemma Reassociate(a: Text, g: Text, b: Text, h: Text, more: Text, rest: Text)
    ensures (a + (g + (b + (h + more)))) + rest == a + (g + (b + (h + (more + rest))))
  {}

  /** Of an odd number at least three, the last stays with what follows. */
  lemma OddFolds(init: seq<Text>, gs: seq<Text>, g: Text, last: Text, rest: Text)
    requires IsChain(init, gs) && |init| % 2 == 0 && IsGap(g) && IsLiteral(last)
    ensures FoldConcat(Chain(init + [last], gs + [g]) + rest)
            == Chain(Halved(init), HalvedGaps(gs)) + (g + FoldConcat(last + rest))
  {
    hide FoldConcat, IsLiteral, IsGap, Chain, Halved, HalvedGaps;
    ChainSnoc(init, gs, g, last);
    assert Chain(init + [last], gs + [g]) + rest == Chain(init, gs) + (g + (last + rest));
    EvenFolds(init, gs, g + (last + rest));
    GapPlain(g);
    FoldPlain(g, last + rest);
  }

  lemma {:induction false} OperatorsIterated(s: Text, n: nat)
    ensures Operators(Iterated(FoldConcat, s, n)) <= Operators(s)
    decreases n
  {
    hide FoldConcat, Operators, PairCount;
    if n > 0 {
      OperatorsFolded(s);
      OperatorsIterated(FoldConcat(s), n - 1);
    }
  }

  lemma OperatorsLiteral(t: Text)
    requires IsLiteral(t)
    ensures Operators(t) == Operators(Unquoted(t))
  {
    LiteralEnds(t);
    OperatorsUnquoted(t);
  }

  /** A gap is one operator. */
  lemma OperatorsOfGap(g: Text)
    requires IsGap(g)
    ensures Operators(g) == 1
  {
    OperatorsGap(g);
    assert g[..|g|] == g;
  }

  lemma OperatorsBehind(last: Text, g: Text, y: Text)
    requires IsLiteral(last) && IsGap(g)
    ensures Operators(last + (g + y)) == Operators(Unquoted(last)) + 1 + Operators(y)
  {
    hide Operators, Unquoted, IsLiteral, IsGap;
    OperatorsConcat(last, g + y);
    OperatorsConcat(g, y);
    OperatorsLiteral(last);
    OperatorsOfGap(g);
  }

  /** When joined literals, an operator and some text become one literal in the end, the operator between them was
      spent on the way, or one that the literals or the text needed. */
  lemma {:induction false} OperatorIsSpent(xs: seq<Text>, gs: seq<Text>, g: Text, y: Text, n: nat)
    requires IsChain(xs, gs) && IsGap(g)
    ensures var r := Iterated(FoldConcat, Chain(xs, gs) + (g + y), n);
            IsLiteral(r) ==> Operators(r) <= Operators(Denoted(xs)) + Operators(y)
    decreases n
  {
    hide FoldConcat, IsLiteral, IsGap, Chain, Halved, HalvedGaps, Operators, Denoted, Unquoted;
    if n == 0 {
      SomeGap(g);
      NeverALiteral(xs, gs, g + y);
    } else if |xs| == 1 && PairCount(xs[0] + (g + y)) > 0 {
      OneSpent(xs, gs, g, y, n);
    } else {
      var zs, zgs, h, w := PassBefore(xs, gs, g, y);
      OperatorIsSpent(zs, zgs, h, w, n - 1);
    }
  }

  /** One pass over joined literals, an operator and some text leaves the same shape, with no more operators in the
      string and the text together. */
  lemma PassBefore(xs: seq<Text>, gs: seq<Text>, g: Text, y: Text) returns (zs: seq<Text>, zgs: seq<Text>, h: Text, w: Text)
    requires IsChain(xs, gs) && IsGap(g) && (|xs| > 1 || PairCount(xs[0] + (g + y)) == 0)
    ensures IsChain(zs, zgs) && IsGap(h)
    ensures FoldConcat(Chain(xs, gs) + (g + y)) == Chain(zs, zgs) + (h + w)
    ensures Operators(Denoted(zs)) + Operators(w) <= Operators(Denoted(xs)) + Operators(y)
  {
    hide FoldConcat, IsLiteral, IsGap, Chain, Halved, HalvedGaps, Operators, Denoted, Unquoted, PairCount;
    if |xs| % 2 == 0 {
      zs, zgs, h, w := Halved(xs), HalvedGaps(gs), g, FoldConcat(y);
      HalvedIsChain(xs, gs);
      HalvedDenotes(xs);
      EvenFolds(xs, gs, g + y);
      GapPlain(g);
      FoldPlain(g, y);
      OperatorsFolded(y);
    } else if |xs| == 1 {
      zs, zgs, h, w := xs, gs, g, y;
      OneDenotes(xs, gs);
      UncountedIsFixed(xs[0] + (g + y));
    } else {
      var k := |xs| - 1;
      assert xs == xs[..k] + [xs[k]] && gs == gs[..k - 1] + [gs[k - 1]];
      InitIsChain(xs, gs);
      zs, zgs, h, w := OddPassBefore(xs[..k], gs[..k - 1], gs[k - 1], xs[k], g, y);
    }
  }

  lemma OddPassBefore(init: seq<Text>, gs: seq<Text>, f: Text, last: Text, g: Text, y: Text)
    returns (zs: seq<Text>, zgs: seq<Text>, h: Text, w: Text)
    requires IsChain(init, gs) && |init| % 2 == 0 && IsGap(f) && IsLiteral(last) && IsGap(g)
    ensures IsChain(zs, zgs) && IsGap(h)
    ensures FoldConcat(Chain(init + [last], gs + [f]) + (g + y)) == Chain(zs, zgs) + (h + w)
    ensures Operators(Denoted(zs)) + Operators(w) <= Operators(Denoted(init + [last])) + Operators(y)
  {
    hide FoldConcat, IsLiteral, IsGap, Chain, Halved, HalvedGaps, Operators, Denoted, Unquoted, PairCount;
    var z := last + (g + y);
    var halved, gaps := Halved(init), HalvedGaps(gs);
    OddFolds(init, gs, f, last, g + y);
    HalvedIsChain(init, gs);
    HalvedDenotes(init);
    DenotedSnoc(init, last);
    if PairCount(z) == 0 {
      zs, zgs, h, w := halved + [last], gaps + [f], g, y;
      UncountedIsFixed(z);
      ChainSnoc(halved, gaps, f, last);
      DenotedSnoc(halved, last);
      Regroup(Chain(halved, gaps), f, last, g + y);
    } else {
      zs, zgs, h, w := halved, gaps, f, FoldConcat(z);
      OperatorsConcat(Denoted(init), Unquoted(last));
      OperatorsBehind(last, g, y);
      OperatorsFolded(z);
    }
  }

  lemma Regroup(a: Text, b: Text, c: Text, d: Text)
    ensures a + (b + (c + d)) == (a + (b + c)) + d
  {}

  lemma SomeGap(g: Text)
    requires IsGap(g)
    ensures g != ""
  {}

  lemma NeverALiteral(xs: seq<Text>, gs: seq<Text>, rest: Text)
    requires IsChain(xs, gs) && rest != ""
    ensures !IsLiteral(Chain(xs, gs) + rest)
  {
    hide IsLiteral, IsGap;
    if |xs| == 1 {
      LongerIsNoLiteral(xs[0], rest);
    } else {
      var more := gs[0] + Chain(xs[1..], gs[1..]);
      assert Chain(xs, gs) + rest == xs[0] + (more + rest);
      LongerIsNoLiteral(xs[0], more + rest);
    }
  }

  lemma InitIsChain(xs: seq<Text>, gs: seq<Text>)
    requires IsChain(xs, gs) && |xs| >= 2
    ensures IsChain(xs[..|xs| - 1], gs[..|gs| - 1])
  {}

  lemma UncountedIsFixed(s: Text)
    requires PairCount(s) == 0
    ensures FoldConcat(s) == s
  {
    NoPairsCounted(s);
    NoPairIsFixed(s);
  }

  /** One literal before the operator: the first pass joins something, or it changes nothing. */
  lemma OneSpent(xs: seq<Text>, gs: seq<Text>, g: Text, y: Text, n: nat)
    requires IsChain(xs, gs) && |xs| == 1 && IsGap(g) && n > 0
    ensures Chain(xs, gs) == xs[0]
    ensures PairCount(xs[0] + (g + y)) == 0 ==> FoldConcat(xs[0] + (g + y)) == xs[0] + (g + y)
    ensures PairCount(xs[0] + (g + y)) > 0 ==>
              Operators(Iterated(FoldConcat, xs[0] + (g + y), n)) <= Operators(Denoted(xs)) + Operators(y)
  {
    hide FoldConcat, IsLiteral, IsGap, Operators, PairCount, Unquoted, Denoted;
    var z := xs[0] + (g + y);
    OneDenotes(xs, gs);
    OperatorsBehind(xs[0], g, y);
    OperatorsFolded(z);
    OperatorsIterated(FoldConcat(z), n - 1);
    if PairCount(z) == 0 { UncountedIsFixed(z); }
  }

  // ---- exactly when they collapse ------------------------------------------------------------------------------------

  /** A literal that comes out in the end holds at most the operators of the string, and fewer where a stage was
      not clean: a pair inside the odd last literal spends one the string needs. */
  lemma {:induction false} UncleanLosesAnOperator(ts: seq<Text>, gs: seq<Text>, n: nat)
    requires IsChain(ts, gs)
    ensures var r := Iterated(FoldConcat, Chain(ts, gs), n);
            IsLiteral(r) && !StagesClean(ts, n) ==> Operators(r) < Operators(Denoted(ts))
    decreases n
  {
    hide FoldConcat, IsLiteral, IsGap, NoPair, Halved, HalvedGaps, Chain, Denoted, Unquoted, Operators;
    if n > 0 {
      if |ts| % 2 == 0 || NoPair(ts[|ts| - 1]) {
        OnePassHalvesIff(ts, gs);
        HalvedIsChain(ts, gs);
        HalvedDenotes(ts);
        UncleanLosesAnOperator(Halved(ts), HalvedGaps(gs), n - 1);
      } else {
        UncleanPassLosesAnOperator(ts, gs, n);
      }
    }
  }

  lemma UncleanPassLosesAnOperator(ts: seq<Text>, gs: seq<Text>, n: nat)
    requires IsChain(ts, gs) && n > 0 && |ts| % 2 == 1 && !NoPair(ts[|ts| - 1])
    ensures var r := Iterated(FoldConcat, Chain(ts, gs), n);
            IsLiteral(r) ==> Operators(r) < Operators(Denoted(ts))
  {
    hide FoldConcat, IsLiteral, IsGap, NoPair, Halved, HalvedGaps, Chain, Denoted, Unquoted, Operators, PairCount;
    var k := |ts| - 1;
    var last := ts[k];
    OperatorsFolded(last);
    if PairCount(last) == 0 { NoPairsCounted(last); }
    OperatorsLiteral(last);
    if k == 0 {
      OneDenotes(ts, gs);
      OperatorsIterated(FoldConcat(last), n - 1);
    } else {
      var init, initGaps := ts[..k], gs[..k - 1];
      assert ts == init + [last] && gs == initGaps + [gs[k - 1]];
      InitIsChain(ts, gs);
      OddFolds(init, initGaps, gs[k - 1], last, "");
      assert last + "" == last && Chain(ts, gs) + "" == Chain(ts, gs);
      HalvedIsChain(init, initGaps);
      HalvedDenotes(init);
      OperatorIsSpent(Halved(init), HalvedGaps(initGaps), gs[k - 1], FoldConcat(last), n - 1);
      DenotedSnoc(init, last);
      OperatorsConcat(Denoted(init), Unquoted(last));
    }
  }

  /** n passes leave one literal of the same string if and only if there were at most 2^n literals and at no stage
      an odd last one with a pair inside. */
  lemma JoinsCollapseIff(ts: seq<Text>, gs: seq<Text>, n: nat)
    requires IsChain(ts, gs)
    ensures var r := Iterated(FoldConcat, Chain(ts, gs), n);
            IsLiteral(r) && Unquoted(r) == Denoted(ts) <==> |ts| <= PowerOfTwo(n) && StagesClean(ts, n)
  {
    hide FoldConcat, IsLiteral, IsGap, StagesClean, Chain, Denoted, Unquoted, Operators, PowerOfTwo, Iterated;
    var r := Iterated(FoldConcat, Chain(ts, gs), n);
    if StagesClean(ts, n) {
      CleanStagesCollapse(ts, gs, n);
    } else {
      UncleanLosesAnOperator(ts, gs, n);
      if IsLiteral(r) { OperatorsLiteral(r); }
    }
  }

  // ---- a condition on the literals themselves ----------------------------------------------------------------------

  /** Inside a quoted value the single quotes are escaped, so only a double quote could start a literal that
      ends before it does. */
  lemma {:induction false} EscapedNoPair(v: Text, i: nat)
    requires '"' !in v && i < |Escaped(v) + "'"|
    ensures !HasPair((Escaped(v) + "'")[i..])
    decreases |v|
  {
    var t := Escaped(v) + "'";
    if v == "" {
      assert t[i..] == "'" && ("'")[1..] == "";
    } else {
      var rest := Escaped(v[1..]) + "'";
      var head := |t| - |rest|;
      assert t[head..] == rest;
      if i >= head {
        assert t[i..] == rest[i - head..];
        EscapedNoPair(v[1..], i - head);
      } else if i == 1 && v[0] == '\'' {
        assert t[1..] == Quoted(v[1..]);
        LiteralAlone(v[1..]);
      } else {
        assert !IsQuote(t[i..][0]);
      }
    }
  }

  lemma LiteralAlone(v: Text)
    ensures !HasPair(Quoted(v))
  {
    QuotedIsLiteral(v, "");
    assert Quoted(v)[|Quoted(v)|..] == "";
  }

  lemma QuotedNoPair(v: Text)
    requires '"' !in v
    ensures NoPair(Quoted(v))
  {
    var t := Quoted(v);
    forall i | 0 <= i < |t| ensures !HasPair(t[i..]) {
      if i == 0 {
        assert t[0..] == t;
        LiteralAlone(v);
      } else {
        assert t[i..] == (Escaped(v) + "'")[i - 1..];
        EscapedNoPair(v, i - 1);
      }
    }
  }

  ghost predicate NoDoubleQuotes(ts: seq<Text>) { forall i :: 0 <= i < |ts| ==> '"' !in Unquoted(ts[i]) }

  lemma {:induction false} HalvedPlain(ts: seq<Text>)
    requires NoDoubleQuotes(ts) && ts != [] && NoPair(ts[|ts| - 1])
    ensures NoDoubleQuotes(Halved(ts)) && NoPair(Halved(ts)[|Halved(ts)| - 1])
    decreases |ts|
  {
    hide Quoted, Unquoted, NoPair;
    if |ts| >= 2 {
      var v := Unquoted(ts[0]) + Unquoted(ts[1]);
      UnquoteQuote(v);
      assert '"' !in v;
      QuotedNoPair(v);
      if |ts| >= 3 {
        assert ts[2..][|ts| - 3] == ts[|ts| - 1];
        HalvedPlain(ts[2..]);
      }
    }
  }

  lemma {:induction false} PlainStagesClean(ts: seq<Text>, n: nat)
    requires NoDoubleQuotes(ts) && ts != [] && NoPair(ts[|ts| - 1])
    ensures StagesClean(ts, n)
    decreases n
  {
    hide Halved, NoPair, NoDoubleQuotes;
    if n > 0 {
      HalvedPlain(ts);
      HalvedNotEmpty(ts);
      PlainStagesClean(Halved(ts), n - 1);
    }
  }

  lemma HalvedNotEmpty(ts: seq<Text>)
    requires ts != []
    ensures Halved(ts) != []
  {}

  // ---- joined literals inside other text ------------------------------------------------------------------------------

  ghost predicate Plain(s: Text) { forall k :: 0 <= k < |s| ==> !IsQuote(s[k]) }

  lemma PlainTail(y: Text, n: nat)
    requires Plain(y) && n <= |y|
    ensures Plain(y[n..])
  {}

  /** Text without quotes closes no literal. */
  lemma {:induction false} PlainClosesNothing(q: char, t: Text, y: Text)
    requires IsQuote(q) && Plain(y) && Close(q, t) == 0
    ensures Close(q, t + y) == 0
    decreases |t| + |y|
  {
    if t == "" {
      assert t + y == y;
      if y != "" {
        assert ("" + y[1..]) == y[1..];
        PlainTail(y, 1);
        PlainClosesNothing(q, "", y[1..]);
        if |y| >= 2 {
          assert ("" + y[2..]) == y[2..];
          PlainTail(y, 2);
          PlainClosesNothing(q, "", y[2..]);
        }
      }
    } else if t[0] != q {
      assert (t + y)[1..] == t[1..] + y;
      if t[0] != '\\' {
        PlainClosesNothing(q, t[1..], y);
      } else if |t| >= 2 {
        assert (t + y)[2..] == t[2..] + y;
        if t[1] != '\n' { PlainClosesNothing(q, t[2..], y); }
      } else if y != "" {
        assert (t + y)[2..] == y[1..] && "" + y[1..] == y[1..];
        PlainTail(y, 1);
        PlainClosesNothing(q, "", y[1..]);
      }
    }
  }

  lemma LiteralBefore(s: Text, y: Text)
    requires Plain(y)
    ensures LiteralLength(s + y) == LiteralLength(s)
  {
    if s == "" {
      assert s + y == y;
    } else if IsQuote(s[0]) {
      assert (s + y)[1..] == s[1..] + y;
      if Close(s[0], s[1..]) == 0 {
        PlainClosesNothing(s[0], s[1..], y);
      } else {
        CloseExtends(s[0], s[1..], y);
      }
    }
  }

  lemma {:induction false} BlankBefore(s: Text, y: Text)
    requires BlankLength(s + y) < |s|
    ensures BlankLength(s) == BlankLength(s + y)
  {
    if s != "" && IsBlank(s[0]) {
      assert (s + y)[1..] == s[1..] + y;
      BlankBefore(s[1..], y);
    }
  }

  lemma DropBefore(s: Text, y: Text, n: nat)
    requires n <= |s|
    ensures (s + y)[n..] == s[n..] + y
  {}

  /** A gap that ends before `y` is the gap without `y`, and the other way round. */
  lemma GapBefore(r: Text, y: Text)
    ensures 0 < GapLength(r + y) < |r| ==> GapLength(r) == GapLength(r + y)
    ensures 0 < GapLength(r) < |r| ==> GapLength(r + y) == GapLength(r)
  {
    hide BlankLength;
    if 0 < GapLength(r + y) < |r| {
      var b := BlankLength(r + y);
      BlankBefore(r, y);
      DropBefore(r, y, b + 1);
      BlankBefore(r[b + 1..], y);
    }
    if 0 < GapLength(r) < |r| { GapAfter(r, y); }
  }

  lemma GapAfter(r: Text, y: Text)
    requires 0 < GapLength(r) < |r|
    ensures GapLength(r + y) == GapLength(r)
  {
    hide BlankLength;
    var b := BlankLength(r);
    BlankExtends(r, y);
    DropBefore(r, y, b + 1);
    BlankExtends(r[b + 1..], y);
  }

  /** Text without quotes makes and breaks no pair before it. */
  lemma PairBefore(s: Text, y: Text)
    requires Plain(y)
    ensures HasPair(s + y) <==> HasPair(s)
    ensures HasPair(s) ==> Pair(s + y) == Pair(s)
  {
    hide GapLength, LiteralLength;
    var a := LiteralLength(s);
    LiteralBefore(s, y);
    var r := s[a..];
    if a > 0 {
      assert (s + y)[a..] == r + y;
      GapBefore(r, y);
      var g, h := GapLength(r), GapLength(r + y);
      if 0 < g < |r| || 0 < h < |r| {
        assert g == h && (s + y)[a + g..] == s[a + g..] + y;
        LiteralBefore(s[a + g..], y);
      } else {
        NoLiteralHere(r, y, g, h);
        assert s[a + g..] == r[g..] && (s + y)[a + h..] == (r + y)[h..];
      }
    }
  }

  lemma NoLiteralHere(r: Text, y: Text, g: nat, h: nat)
    requires Plain(y) && g <= |r| && h <= |r + y| && (g == 0 || g == |r|) && (h == 0 || h >= |r|)
    ensures g == |r| ==> LiteralLength(r[g..]) == 0
    ensures h >= |r| ==> LiteralLength((r + y)[h..]) == 0
  {
    if h >= |r| {
      assert (r + y)[h..] == y[h - |r|..];
      PlainTail(y, h - |r|);
    }
  }

  lemma {:induction false} FoldBefore(x: Text, y: Text)
    requires Plain(y)
    ensures FoldConcat(x + y) == FoldConcat(x) + y
    decreases |x|
  {
    hide FoldConcat, Pair, Joined, LiteralLength, GapLength;
    if x == "" {
      FoldPlain(y, "");
      FoldNothing();
      assert x + y == y == y + "";
    } else {
      PairBefore(x, y);
      FoldStep(x);
      FoldStep(x + y);
      if HasPair(x) {
        var n := PairLength(x);
        JoinedBefore(x, y);
        DropBefore(x, y, n);
        FoldBefore(x[n..], y);
      } else {
        DropBefore(x, y, 1);
        FoldBefore(x[1..], y);
      }
    }
  }

  lemma SliceBefore(s: Text, y: Text, i: nat, j: nat)
    requires i <= j <= |s|
    ensures (s + y)[i..j] == s[i..j]
  {}

  lemma JoinedBefore(x: Text, y: Text)
    requires HasPair(x) && HasPair(x + y) && Pair(x + y) == Pair(x)
    ensures Joined(x + y) == Joined(x) && PairLength(x + y) == PairLength(x)
  {
    hide Quoted, Unquoted, Pair;
    var (a, g, b) := Pair(x);
    SliceBefore(x, y, 0, a);
    SliceBefore(x, y, a + g, a + g + b);
  }

  /** Whatever text stands between quote-free text before and after it is folded as it would be alone. */
  lemma {:induction false} SurroundedAlike(before: Text, x: Text, after: Text, n: nat)
    requires Plain(before) && Plain(after)
    ensures Iterated(FoldConcat, before + x + after, n) == before + Iterated(FoldConcat, x, n) + after
    decreases n
  {
    hide FoldConcat;
    if n > 0 {
      FoldBefore(before + x, after);
      FoldPlain(before, x);
      SurroundedAlike(before, FoldConcat(x), after, n - 1);
    }
  }

  /** The joined literals became one literal of the same string, in place. */
  ghost predicate FoldedInPlace(before: Text, ts: seq<Text>, after: Text, text: Text) {
    exists t :: IsLiteral(t) && Unquoted(t) == Denoted(ts) && text == before + t + after
  }

  /** In any text without other quotes, the eight passes make one literal of joined literals, in place, if and only
      if there are at most 256 and at no stage an odd last one holds a pair. */
  lemma EightPassesIff(before: Text, ts: seq<Text>, gs: seq<Text>, after: Text)
    requires IsChain(ts, gs) && Plain(before) && Plain(after)
    ensures FoldedInPlace(before, ts, after, Iterated(FoldConcat, before + Chain(ts, gs) + after, MAX_FOLD_PASSES))
            <==> |ts| <= 256 && StagesClean(ts, MAX_FOLD_PASSES)
  {
    hide FoldConcat, IsLiteral, IsGap, StagesClean, Iterated, PowerOfTwo, Denoted, Unquoted, Chain, Plain;
    EightIsEnough();
    JoinsCollapseIff(ts, gs, MAX_FOLD_PASSES);
    SurroundedAlike(before, Chain(ts, gs), after, MAX_FOLD_PASSES);
    var r := Iterated(FoldConcat, Chain(ts, gs), MAX_FOLD_PASSES);
    forall t | before + t + after == before + r + after ensures t == r { SameInside(before, t, r, after); }
  }

  lemma SameInside(before: Text, t: Text, r: Text, after: Text)
    requires before + t + after == before + r + after
    ensures t == r
  {
    assert |t| == |r|;
    assert t == (before + t + after)[|before|..|before| + |t|];
    assert r == (before + r + after)[|before|..|before| + |r|];
  }

  /** So up to 256 joined literals whose values hold no double quote, the last of them no pair, always fold. */
  lemma ManyJoinsFold(before: Text, ts: seq<Text>, gs: seq<Text>, after: Text)
    requires IsChain(ts, gs) && |ts| <= 256 && NoDoubleQuotes(ts) && NoPair(ts[|ts| - 1])
    requires Plain(before) && Plain(after)
    ensures FoldedInPlace(before, ts, after, Iterated(FoldConcat, before + Chain(ts, gs) + after, MAX_FOLD_PASSES))
  {
    hide FoldConcat, IsLiteral, IsGap, StagesClean, NoPair, NoDoubleQuotes, Iterated, FoldedInPlace;
    PlainStagesClean(ts, MAX_FOLD_PASSES);
    EightPassesIff(before, ts, gs, after);
  }

  lemma EightIsEnough()
    ensures PowerOfTwo(8) == 256
  {
    assert PowerOfTwo(4) == 16;
    assert PowerOfTwo(6) == 4 * PowerOfTwo(4);
  }
}
