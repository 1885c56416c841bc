/** Symbolic links resolved under a mounted root (shellsight/internal/discover/resolveunder.go). */
module ResolveUnder {
  // A path is the sequence of its components, so `root` and every resolved path are sequences and "inside the
  // root" is the prefix order. The filesystem is a finite map; links may form cycles.
  //
  // The loop of the source keeps a worklist onto which a link target is prepended. The reference `Walk` has no
  // worklist: it resolves a link target to a place first and continues from that place.

  import opened Common

  type Path = seq<string>

  datatype Node = Dir | File | Link(target: string)

  type Filesystem = map<Path, Node>

  datatype Failure = Escape | NotExist | TooManyLinks | NotDirectory

  const MAX_LINK_HOPS: nat := 40

  // ---- paths -----------------------------------------------------------------------------------

  function RunLength(p: string): (n: nat)
    ensures n <= |p|
    ensures forall k :: 0 <= k < n ==> p[k] != '/'
    ensures n < |p| ==> p[n] == '/'
  {
    if p == "" || p[0] == '/' then 0 else 1 + RunLength(p[1..])
  }

  /** The non-empty pieces of `p` between slashes. */
  function SplitPath(p: string): (pieces: seq<string>)
    ensures forall s :: s in pieces ==> s != "" && '/' !in s
    decreases |p|
  {
    if p == "" then []
    else if p[0] == '/' then SplitPath(p[1..])
    else [p[..RunLength(p)]] + SplitPath(p[RunLength(p)..])
  }

  /** A target beginning with a backslash counts as absolute on every platform. */
  predicate IsAbsolute(target: string) {
    target != "" && (target[0] == '/' || target[0] == '\\')
  }

  function CommonPrefix(a: Path, b: Path): (n: nat)
    ensures n <= |a| && n <= |b| && a[..n] == b[..n]
    ensures a <= b ==> n == |a|
    ensures n == |a| ==> a <= b
  {
    if a == [] || b == [] || a[0] != b[0] then 0
    else
      assert a <= b ==> a[1..] <= b[1..];
      1 + CommonPrefix(a[1..], b[1..])
  }

  /** How `abs` is reached from `root`: steps up to their common ancestor, then down. */
  function Rel(root: Path, abs: Path): Path {
    var n := CommonPrefix(root, abs);
    seq(|root| - n, _ => "..") + abs[n..]
  }

  // ---- what splitting means -------------------------------------------------------------------------

  predicate IsName(p: string) { p != "" && '/' !in p }

  predicate Slashes(s: string) { forall c :: c in s ==> c == '/' }

  /** The names in order, `gaps[i]` in front of `ps[i]`, `tail` behind the last. */
  function Spelled(ps: Path, gaps: seq<string>, tail: string): string
    requires |gaps| == |ps|
  {
    if ps == [] then tail else gaps[0] + (ps[0] + Spelled(ps[1..], gaps[1..], tail))
  }

  /** The text names `ps`: one slash or more between each two, any number before the first and after the last. */
  ghost predicate Spells(text: string, ps: Path, gaps: seq<string>, tail: string) {
    && |gaps| == |ps| && text == Spelled(ps, gaps, tail) && Slashes(tail)
    && (forall i :: 0 <= i < |ps| ==> IsName(ps[i]) && Slashes(gaps[i]))
    && forall i :: 0 < i < |ps| ==> gaps[i] != ""
  }

  lemma {:induction false} SplitSkips(gap: string, text: string)
    requires Slashes(gap)
    ensures SplitPath(gap + text) == SplitPath(text)
  {
    if gap == "" {
      assert gap + text == text;
    } else {
      assert gap[0] in gap && forall c :: c in gap[1..] ==> c in gap;
      assert (gap + text)[1..] == gap[1..] + text;
      SplitSkips(gap[1..], text);
    }
  }

  lemma {:induction false} NameLength(name: string, text: string)
    requires '/' !in name && (text == "" || text[0] == '/')
    ensures RunLength(name + text) == |name|
  {
    if name == "" {
      assert name + text == text;
    } else {
      assert name[0] in name && forall c :: c in name[1..] ==> c in name;
      assert (name + text)[1..] == name[1..] + text;
      NameLength(name[1..], text);
    }
  }

  lemma SplitTakes(name: string, text: string)
    requires IsName(name) && (text == "" || text[0] == '/')
    ensures SplitPath(name + text) == [name] + SplitPath(text)
  {
    NameLength(name, text);
    assert name[0] in name && (name + text)[0] == name[0];
    assert (name + text)[..|name|] == name && (name + text)[|name|..] == text;
  }

  lemma {:induction false} SplitSpelled(ps: Path, gaps: seq<string>, tail: string)
    requires |gaps| == |ps| && Spells(Spelled(ps, gaps, tail), ps, gaps, tail)
    ensures SplitPath(Spelled(ps, gaps, tail)) == ps
    decreases |ps|
  {
    hide SplitPath, IsName;
    if ps == [] {
      SplitSkips(tail, "");
      assert tail + "" == tail;
      NothingSplit();
    } else {
      var rest := Spelled(ps[1..], gaps[1..], tail);
      SplitSpelled(ps[1..], gaps[1..], tail);
      NextSlash(ps, gaps, tail);
      SplitSkips(gaps[0], ps[0] + rest);
      SplitTakes(ps[0], rest);
    }
  }

  lemma NextSlash(ps: Path, gaps: seq<string>, tail: string)
    requires ps != [] && |gaps| == |ps| && Spells(Spelled(ps, gaps, tail), ps, gaps, tail)
    ensures var rest := Spelled(ps[1..], gaps[1..], tail); rest == "" || rest[0] == '/'
  {
    if |ps| == 1 {
      if tail != "" { assert tail[0] in tail; }
    } else {
      assert gaps[1][0] in gaps[1] && gaps[1..][0] == gaps[1];
    }
  }

  lemma NothingSplit() ensures SplitPath("") == [] {}

  /** Splitting finds exactly the names a text is spelled from, in order: leading, doubled and trailing slashes
      are ignored, and there is one way to read a text. */
  lemma SplitIff(text: string, ps: Path)
    ensures SplitPath(text) == ps <==> exists gaps, tail :: Spells(text, ps, gaps, tail)
  {
    hide SplitPath;
    if SplitPath(text) == ps {
      var gaps, tail := Reading(text);
    } else if gaps, tail :| Spells(text, ps, gaps, tail) {
      SplitSpelled(ps, gaps, tail);
    }
  }

  lemma {:induction false} Reading(text: string) returns (gaps: seq<string>, tail: string)
    ensures Spells(text, SplitPath(text), gaps, tail)
    ensures gaps != [] ==> (gaps[0] == "" <==> text[0] != '/')
    decreases |text|
  {
    if text == "" {
      gaps, tail := [], "";
    } else if text[0] == '/' {
      gaps, tail := Reading(text[1..]);
      gaps, tail := SlashBefore(text[1..], SplitPath(text[1..]), gaps, tail);
      assert text == "/" + text[1..];
    } else {
      var n := RunLength(text);
      gaps, tail := Reading(text[n..]);
      assert text == text[..n] + text[n..];
      gaps := NameBefore(text[..n], text[n..], SplitPath(text[n..]), gaps, tail);
    }
  }

  lemma SlashBefore(text: string, ps: Path, gaps: seq<string>, tail: string) returns (gaps': seq<string>, tail': string)
    requires Spells(text, ps, gaps, tail)
    ensures Spells("/" + text, ps, gaps', tail') && (gaps' != [] ==> gaps'[0] != "")
  {
    if ps == [] {
      gaps', tail' := [], "/" + tail;
    } else {
      gaps', tail' := ["/" + gaps[0]] + gaps[1..], tail;
      assert gaps'[1..] == gaps[1..];
      assert ("/" + gaps[0]) + (ps[0] + Spelled(ps[1..], gaps[1..], tail)) == "/" + text;
    }
  }

  lemma NameBefore(name: string, text: string, ps: Path, gaps: seq<string>, tail: string) returns (gaps': seq<string>)
    requires Spells(text, ps, gaps, tail) && IsName(name) && (gaps != [] ==> gaps[0] != "")
    ensures Spells(name + text, [name] + ps, gaps', tail) && gaps'[0] == ""
  {
    gaps' := [""] + gaps;
    assert ([name] + ps)[1..] == ps && gaps'[1..] == gaps;
    assert "" + (name + text) == name + text;
  }

  // ---- reference semantics -----------------------------------------------------------------------

  datatype Walked = Reached(at: Path, left: nat) | Failed(why: Failure)

  predicate Skipped(p: string) { p == "" || p == "." }

  /** Resolve `comps` from the directory `cur`, following at most `hops` links. Links are resolved
      inside out; there is no worklist. */
  function Walk(fs: Filesystem, root: Path, cur: Path, comps: Path, hops: nat): (w: Walked)
    requires root <= cur
    ensures w.Reached? ==> root <= w.at && w.left <= hops
    decreases hops, |comps|
  {
    if comps == [] then Reached(cur, hops)
    else
      var p, rest := comps[0], comps[1..];
      if Skipped(p) then Walk(fs, root, cur, rest, hops)
      else if p == ".." then
        if cur == root then Failed(Escape) else Walk(fs, root, cur[..|cur| - 1], rest, hops)
      else if cur + [p] !in fs then Failed(NotExist)
      else if !fs[cur + [p]].Link? then Walk(fs, root, cur + [p], rest, hops)
      else if hops == 0 then Failed(TooManyLinks)
      else
        var t := fs[cur + [p]].target;
        var w := Walk(fs, root, if IsAbsolute(t) then root else cur, SplitPath(t), hops - 1);
        if w.Failed? then w else Walk(fs, root, w.at, rest, w.left)
  }

  lemma {:induction false} WalkConcat(fs: Filesystem, root: Path, cur: Path, a: Path, b: Path, hops: nat)
    requires root <= cur
    ensures Walk(fs, root, cur, a + b, hops) ==
            var w := Walk(fs, root, cur, a, hops);
            if w.Failed? then w else Walk(fs, root, w.at, b, w.left)
    decreases hops, |a|
  {
    hide SplitPath, IsAbsolute, Skipped;
    if a == [] {
      assert a + b == b;
    } else {
      var p, rest := a[0], a[1..];
      assert (a + b)[0] == p && (a + b)[1..] == rest + b;
      if Skipped(p) {
        WalkConcat(fs, root, cur, rest, b, hops);
      } else if p == ".." {
        if cur != root { WalkConcat(fs, root, cur[..|cur| - 1], rest, b, hops); }
      } else if cur + [p] in fs {
        if !fs[cur + [p]].Link? {
          WalkConcat(fs, root, cur + [p], rest, b, hops);
        } else if hops > 0 {
          var t := fs[cur + [p]].target;
          var w := Walk(fs, root, if IsAbsolute(t) then root else cur, SplitPath(t), hops - 1);
          if w.Reached? { WalkConcat(fs, root, w.at, rest, b, w.left); }
        }
      }
    }
  }

  // ---- the worklist algorithm --------------------------------------------------------------------

  function Outcome(w: Walked): Result<Path, Failure> {
    match w case Reached(at, _) => Ok(at) case Failed(e) => Err(e)
  }

  method EvalSymlinksUnder(fs: Filesystem, root: Path, abs: Path) returns (r: Result<Path, Failure>)
    ensures r == Outcome(Walk(fs, root, root, Rel(root, abs), MAX_LINK_HOPS))
    ensures root <= abs ==> r == Outcome(Walk(fs, root, root, abs[|root|..], 40))
    ensures !(root <= abs) ==> r == Err(Escape)
    ensures r.Ok? ==> Settled(fs, root, r.value)
  {
    RelIs(fs, root, abs);
    var work := Rel(root, abs);
    var cur := root;
    var hops: nat := 0;
    while work != []
      invariant root <= cur && hops <= MAX_LINK_HOPS
      invariant Settled(fs, root, cur)
      invariant Walk(fs, root, cur, work, MAX_LINK_HOPS - hops)
             == Walk(fs, root, root, Rel(root, abs), MAX_LINK_HOPS)
      decreases MAX_LINK_HOPS - hops, |work|
    {
      var p := work[0];
      work := work[1..];
      if Skipped(p) { continue; }
      if p == ".." {
        if cur == root { return Err(Escape); }
        SettledParent(fs, root, cur);
        cur := cur[..|cur| - 1];
        continue;
      }
      var next := cur + [p];
      if next !in fs { return Err(NotExist); }
      if !fs[next].Link? {
        SettledChild(fs, root, cur, p);
        cur := next;
        continue;
      }
      hops := hops + 1;
      if hops > MAX_LINK_HOPS { return Err(TooManyLinks); }
      var target := fs[next].target;
      if IsAbsolute(target) { cur := root; }
      WalkConcat(fs, root, cur, SplitPath(target), work, MAX_LINK_HOPS - hops);
      work := SplitPath(target) + work;
    }
    r := Ok(cur);
  }

  // ---- what a success means ------------------------------------------------------------------------

  /** The first `n` components of `p` name an existing entry that is not a link, by an ordinary name. */
  ghost predicate Ordinary(fs: Filesystem, p: Path, n: nat)
    requires 0 < n <= |p|
  {
    p[..n] in fs && !fs[p[..n]].Link? && !Skipped(p[n - 1]) && p[n - 1] != ".."
  }

  /** `p` is inside `root`, and nothing below the root on the way to it is a link. */
  ghost predicate Settled(fs: Filesystem, root: Path, p: Path) {
    root <= p && forall n :: |root| < n <= |p| ==> Ordinary(fs, p, n)
  }

  lemma SettledParent(fs: Filesystem, root: Path, p: Path)
    requires Settled(fs, root, p) && p != root
    ensures Settled(fs, root, p[..|p| - 1])
  {
    var q := p[..|p| - 1];
    assert root <= q;
    forall n | |root| < n <= |q| ensures Ordinary(fs, q, n) {
      assert q[..n] == p[..n] && Ordinary(fs, p, n);
    }
  }

  lemma SettledChild(fs: Filesystem, root: Path, p: Path, name: string)
    requires Settled(fs, root, p) && p + [name] in fs && !fs[p + [name]].Link?
    requires !Skipped(name) && name != ".."
    ensures Settled(fs, root, p + [name])
  {
    var q := p + [name];
    forall n | |root| < n <= |q| ensures Ordinary(fs, q, n) {
      if n <= |p| { assert q[..n] == p[..n] && Ordinary(fs, p, n); } else { assert q[..n] == q; }
    }
  }

  lemma {:induction false} ResolvingAgainIsIdentity(fs: Filesystem, root: Path, p: Path, hops: nat)
    requires Settled(fs, root, p)
    ensures Walk(fs, root, root, Rel(root, p), hops) == Reached(p, hops)
  {
    assert Rel(root, p) == p[|root|..];
    SettledFrom(fs, root, p, |root|, hops);
    assert p[..|root|] == root;
  }

  lemma {:induction false} SettledFrom(fs: Filesystem, root: Path, p: Path, n: nat, hops: nat)
    requires Settled(fs, root, p) && |root| <= n <= |p|
    ensures Walk(fs, root, p[..n], p[n..], hops) == Reached(p, hops)
    decreases |p| - n
  {
    if n == |p| {
      assert p[..n] == p && p[n..] == [];
    } else {
      assert Ordinary(fs, p, n + 1);
      assert p[..n] + [p[n]] == p[..n + 1];
      assert p[n..][1..] == p[n + 1..];
      SettledFrom(fs, root, p, n + 1, hops);
    }
  }

  lemma RelIs(fs: Filesystem, root: Path, abs: Path)
    ensures root <= abs ==> Rel(root, abs) == abs[|root|..]
    ensures !(root <= abs) ==> Walk(fs, root, root, Rel(root, abs), MAX_LINK_HOPS) == Failed(Escape)
  {
    if !(root <= abs) { OutsideTheRootEscapes(fs, root, abs, MAX_LINK_HOPS); }
  }

  /** A path outside the root is refused, whatever the filesystem holds. */
  lemma OutsideTheRootEscapes(fs: Filesystem, root: Path, abs: Path, hops: nat)
    requires !(root <= abs)
    ensures Walk(fs, root, root, Rel(root, abs), hops) == Failed(Escape)
  {
    var n := CommonPrefix(root, abs);
    assert n < |root|;
    assert Rel(root, abs)[0] == "..";
  }

  // ---- what following a link means -----------------------------------------------------------------

  /** A component that is a link to the names `ps`, however many slashes stand around them, is followed by going
      on with those names and then the rest, with one link fewer: from the root when the target begins with a
      slash or a backslash, from the directory of the link otherwise. Without a link left it fails. */
  lemma LinkIsFollowed(fs: Filesystem, root: Path, cur: Path, p: string, rest: Path, hops: nat,
                       ps: Path, gaps: seq<string>, tail: string)
    requires root <= cur && p !in ["", ".", ".."] && cur + [p] in fs && fs[cur + [p]].Link?
    requires Spells(fs[cur + [p]].target, ps, gaps, tail)
    ensures hops == 0 ==> Walk(fs, root, cur, [p] + rest, hops) == Failed(TooManyLinks)
    ensures var t := fs[cur + [p]].target;
            var from := if t != "" && (t[0] == '/' || t[0] == '\\') then root else cur;
            hops > 0 ==> Walk(fs, root, cur, [p] + rest, hops) == Walk(fs, root, from, ps + rest, hops - 1)
  {
    var t := fs[cur + [p]].target;
    SplitIff(t, ps);
    var comps := [p] + rest;
    assert comps[0] == p && comps[1..] == rest;
    if hops > 0 { WalkConcat(fs, root, if IsAbsolute(t) then root else cur, ps, rest, hops - 1); }
  }

  /** Every other component: nothing for an empty name or a dot, the parent for two dots, never above the root, and
      otherwise the entry of that name, which must exist. */
  lemma PlainIsEntered(fs: Filesystem, root: Path, cur: Path, p: string, rest: Path, hops: nat)
    requires root <= cur
    ensures var w := Walk(fs, root, cur, [p] + rest, hops);
            && (p in ["", "."] ==> w == Walk(fs, root, cur, rest, hops))
            && (p == ".." && cur == root ==> w == Failed(Escape))
            && (p == ".." && cur != root ==> w == Walk(fs, root, cur[..|cur| - 1], rest, hops))
            && (p !in ["", ".", ".."] && cur + [p] !in fs ==> w == Failed(NotExist))
            && (p !in ["", ".", ".."] && cur + [p] in fs && !fs[cur + [p]].Link? ==> w == Walk(fs, root, cur + [p], rest, hops))
  {
    hide SplitPath, IsAbsolute;
    var comps := [p] + rest;
    assert comps[0] == p && comps[1..] == rest;
  }

  // ---- the hop bound -------------------------------------------------------------------------------

  /** How an outcome relates to the outcome with `more` links allowed. */
  predicate LaterThan(w: Walked, v: Walked, more: nat) {
    match w
    case Reached(at, left) => v == Reached(at, left + more)
    case Failed(TooManyLinks) => v.Reached? ==> v.left < more
    case Failed(_) => v == w
  }

  lemma {:induction false} MoreHops(fs: Filesystem, root: Path, cur: Path, comps: Path, hops: nat, more: nat)
    requires root <= cur
    ensures var w := Walk(fs, root, cur, comps, hops);
            var v := Walk(fs, root, cur, comps, hops + more);
            LaterThan(w, v, more)
    decreases hops, |comps|
  {
    hide SplitPath, IsAbsolute, Skipped;
    if comps != [] {
      var p, rest := comps[0], comps[1..];
      if Skipped(p) {
        MoreHops(fs, root, cur, rest, hops, more);
      } else if p == ".." {
        if cur != root { MoreHops(fs, root, cur[..|cur| - 1], rest, hops, more); }
      } else if cur + [p] in fs {
        if !fs[cur + [p]].Link? {
          MoreHops(fs, root, cur + [p], rest, hops, more);
        } else if hops > 0 {
          var t := fs[cur + [p]].target;
          var base := if IsAbsolute(t) then root else cur;
          MoreHops(fs, root, base, SplitPath(t), hops - 1, more);
          var w := Walk(fs, root, base, SplitPath(t), hops - 1);
          assert LaterThan(w, Walk(fs, root, base, SplitPath(t), hops - 1 + more), more);
          if w.Reached? { MoreHops(fs, root, w.at, rest, w.left, more); }
        }
      }
    }
  }

  /** `abs` resolves to `p` by following exactly `n` links: with a budget of `n` the walk ends with none left. */
  ghost predicate ResolvesBy(fs: Filesystem, root: Path, abs: Path, p: Path, n: nat) {
    Walk(fs, root, root, Rel(root, abs), n) == Reached(p, 0)
  }

  /** With no bound at all: the resolver finds `p` exactly when `abs` resolves to `p` through at most 40
      links, and a path has one resolution and one link count. */
  lemma SucceedsIffFewLinks(fs: Filesystem, root: Path, abs: Path, p: Path)
    ensures Outcome(Walk(fs, root, root, Rel(root, abs), MAX_LINK_HOPS)) == Ok(p)
       <==> exists n: nat :: n <= MAX_LINK_HOPS && ResolvesBy(fs, root, abs, p, n)
    ensures forall q, m: nat, n: nat :: ResolvesBy(fs, root, abs, p, m) && ResolvesBy(fs, root, abs, q, n) ==> p == q && m == n
  {
    var comps := Rel(root, abs);
    var w := Walk(fs, root, root, comps, MAX_LINK_HOPS);
    if w.Reached? && w.at == p {
      var n := MAX_LINK_HOPS - w.left;
      MoreHops(fs, root, root, comps, n, w.left);
      assert ResolvesBy(fs, root, abs, p, n);
    }
    forall n: nat | n <= MAX_LINK_HOPS && ResolvesBy(fs, root, abs, p, n) ensures w == Reached(p, MAX_LINK_HOPS - n) {
      MoreHops(fs, root, root, comps, n, MAX_LINK_HOPS - n);
    }
    forall q, m: nat, n: nat | ResolvesBy(fs, root, abs, p, m) && ResolvesBy(fs, root, abs, q, n) ensures p == q && m == n {
      if m <= n { MoreHops(fs, root, root, comps, m, n - m); } else { MoreHops(fs, root, root, comps, n, m - n); }
    }
  }

  /** A link whose target leads back to itself exhausts every budget. */
  lemma {:induction false} SelfLinkNeverResolves(fs: Filesystem, root: Path, p: string, rest: Path, hops: nat)
    requires root + [p] in fs && fs[root + [p]].Link? && SplitPath(fs[root + [p]].target) == [p]
    requires !Skipped(p) && p != ".."
    ensures Walk(fs, root, root, [p] + rest, hops) == Failed(TooManyLinks)
    decreases hops
  {
    if hops > 0 {
      SelfLinkNeverResolves(fs, root, p, [], hops - 1);
      assert [p] + [] == [p];
    }
  }

  // ---- comparison with the operating system's own resolution under a changed root ----------------------

  /** As `Walk`, with the two rules of a changed root: `..` at the root stays there, and a component can
      only be entered from a directory. */
  function ChrootWalk(fs: Filesystem, root: Path, cur: Path, comps: Path, hops: nat): (w: Walked)
    requires root <= cur
    ensures w.Reached? ==> root <= w.at && w.left <= hops
    decreases hops, |comps|
  {
    if comps == [] then Reached(cur, hops)
    else
      var p, rest := comps[0], comps[1..];
      if cur != root && (cur !in fs || fs[cur] != Dir) then Failed(NotDirectory)
      else if Skipped(p) then ChrootWalk(fs, root, cur, rest, hops)
      else if p == ".." then ChrootWalk(fs, root, if cur == root then root else cur[..|cur| - 1], rest, hops)
      else if cur + [p] !in fs then Failed(NotExist)
      else if !fs[cur + [p]].Link? then ChrootWalk(fs, root, cur + [p], rest, hops)
      else if hops == 0 then Failed(TooManyLinks)
      else
        var t := fs[cur + [p]].target;
        var w := ChrootWalk(fs, root, if IsAbsolute(t) then root else cur, SplitPath(t), hops - 1);
        if w.Failed? then w else ChrootWalk(fs, root, w.at, rest, w.left)
  }

  /** The resolver differs from a changed root in exactly two ways: it refuses where `..` would leave the
      root, and it lets a path continue through something that is not a directory. When both succeed they
      agree. */
  lemma {:induction false} AgreesWithChroot(fs: Filesystem, root: Path, cur: Path, comps: Path, hops: nat)
    requires root <= cur
    ensures var w := Walk(fs, root, cur, comps, hops);
            var c := ChrootWalk(fs, root, cur, comps, hops);
            w == c || w == Failed(Escape) || c == Failed(NotDirectory)
    decreases hops, |comps|
  {
    hide SplitPath, IsAbsolute, Skipped;
    if comps != [] {
      var p, rest := comps[0], comps[1..];
      if cur != root && (cur !in fs || fs[cur] != Dir) {
      } else if Skipped(p) {
        AgreesWithChroot(fs, root, cur, rest, hops);
      } else if p == ".." {
        if cur != root { AgreesWithChroot(fs, root, cur[..|cur| - 1], rest, hops); }
      } else if cur + [p] in fs {
        if !fs[cur + [p]].Link? {
          AgreesWithChroot(fs, root, cur + [p], rest, hops);
        } else if hops > 0 {
          var t := fs[cur + [p]].target;
          var base := if IsAbsolute(t) then root else cur;
          AgreesWithChroot(fs, root, base, SplitPath(t), hops - 1);
          var w := Walk(fs, root, base, SplitPath(t), hops - 1);
          if w.Reached? { AgreesWithChroot(fs, root, w.at, rest, w.left); }
        }
      }
    }
  }

  predicate FileAt(fs: Filesystem, p: Path) { p in fs && fs[p].File? }

  /** Below the root, every place a path can settle at is a directory. */
  ghost predicate OnlyDirectories(fs: Filesystem, root: Path) {
    forall p :: Settled(fs, root, p) && p != root ==> !FileAt(fs, p)
  }

  /** The two resolvers give the same answer, except that only this one refuses to climb above the root. */
  predicate SameBelowRoot(fs: Filesystem, root: Path, comps: Path, hops: nat) {
    var w := Walk(fs, root, root, comps, hops);
    w == ChrootWalk(fs, root, root, comps, hops) || w == Failed(Escape)
  }

  lemma SettledIsThere(fs: Filesystem, root: Path, p: Path)
    requires Settled(fs, root, p) && p != root
    ensures p in fs && !fs[p].Link?
  {
    assert Ordinary(fs, p, |p|) && p[..|p|] == p;
  }

  lemma {:induction false} SameAmongDirectories(fs: Filesystem, root: Path, cur: Path, comps: Path, hops: nat)
    requires Settled(fs, root, cur) && OnlyDirectories(fs, root)
    ensures var w := Walk(fs, root, cur, comps, hops);
            && (w == ChrootWalk(fs, root, cur, comps, hops) || w == Failed(Escape))
            && (w.Reached? ==> Settled(fs, root, w.at))
    decreases hops, |comps|
  {
    if cur != root { SettledIsThere(fs, root, cur); }
    hide SplitPath, IsAbsolute, OnlyDirectories, Settled;
    if comps != [] {
      var p, rest := comps[0], comps[1..];
      if Skipped(p) {
        SameAmongDirectories(fs, root, cur, rest, hops);
      } else if p == ".." {
        if cur != root {
          SettledParent(fs, root, cur);
          SameAmongDirectories(fs, root, cur[..|cur| - 1], rest, hops);
        }
      } else if cur + [p] in fs {
        if !fs[cur + [p]].Link? {
          SettledChild(fs, root, cur, p);
          SameAmongDirectories(fs, root, cur + [p], rest, hops);
        } else if hops > 0 {
          var t := fs[cur + [p]].target;
          var base := if IsAbsolute(t) then root else cur;
          RootSettled(fs, root);
          SameAmongDirectories(fs, root, base, SplitPath(t), hops - 1);
          var w := Walk(fs, root, base, SplitPath(t), hops - 1);
          if w.Reached? { SameAmongDirectories(fs, root, w.at, rest, w.left); }
        }
      }
    }
  }

  lemma RootSettled(fs: Filesystem, root: Path)
    ensures Settled(fs, root, root)
  {}

  /** The resolver is the changed root's for every path and every link budget, refusals to climb above the root
      apart, if and only if no regular file lies at a place below the root that a path can settle at. */
  lemma AgreesWithChrootIff(fs: Filesystem, root: Path)
    ensures (forall comps, hops :: SameBelowRoot(fs, root, comps, hops)) <==> OnlyDirectories(fs, root)
  {
    if OnlyDirectories(fs, root) {
      forall comps, hops: nat ensures SameBelowRoot(fs, root, comps, hops) {
        RootSettled(fs, root);
        SameAmongDirectories(fs, root, root, comps, hops);
      }
    } else {
      var p :| Settled(fs, root, p) && p != root && FileAt(fs, p);
      ThroughAFile(fs, root, p);
      assert !SameBelowRoot(fs, root, p[|root|..] + [".."], 0);
    }
  }

  /** `..` behind a settled regular file leads back to its directory here, and is refused there. */
  lemma ThroughAFile(fs: Filesystem, root: Path, p: Path)
    requires Settled(fs, root, p) && p != root && FileAt(fs, p)
    ensures Walk(fs, root, root, p[|root|..] + [".."], 0) == Reached(p[..|p| - 1], 0)
    ensures ChrootWalk(fs, root, root, p[|root|..] + [".."], 0) == Failed(NotDirectory)
  {
    assert p[..|root|] == root;
    SettledFrom(fs, root, p, |root|, 0);
    WalkConcat(fs, root, root, p[|root|..], [".."], 0);
    assert [".."][1..] == [];
    DownToAFile(fs, root, p, |root|);
  }

  lemma {:induction false} DownToAFile(fs: Filesystem, root: Path, p: Path, n: nat)
    requires Settled(fs, root, p) && p != root && FileAt(fs, p) && |root| <= n <= |p|
    ensures ChrootWalk(fs, root, p[..n], p[n..] + [".."], 0) == Failed(NotDirectory)
    decreases |p| - n
  {
    if n == |p| {
      assert p[..n] == p;
    } else {
      assert Ordinary(fs, p, n + 1);
      assert p[..n] + [p[n]] == p[..n + 1] && p[..|root|] == root;
      assert (p[n..] + [".."])[1..] == p[n + 1..] + [".."];
      DownToAFile(fs, root, p, n + 1);
    }
  }

  /** The second difference is real: `f/..` through a regular file is accepted here and refused there. */
  lemma ContinuesThroughAFile(root: Path)
    ensures var fs := map[root + ["f"] := File];
            && Walk(fs, root, root, ["f", ".."], MAX_LINK_HOPS) == Reached(root, MAX_LINK_HOPS)
            && ChrootWalk(fs, root, root, ["f", ".."], MAX_LINK_HOPS) == Failed(NotDirectory)
  {
    var fs := map[root + ["f"] := File];
    assert (root + ["f"])[..|root|] == root;
    assert ["f", ".."][1..] == [".."];
    assert Walk(fs, root, root, [], MAX_LINK_HOPS) == Reached(root, MAX_LINK_HOPS);
    assert Walk(fs, root, root + ["f"], [".."], MAX_LINK_HOPS) == Reached(root, MAX_LINK_HOPS);
    assert ChrootWalk(fs, root, root + ["f"], [".."], MAX_LINK_HOPS) == Failed(NotDirectory);
  }
}
