/** The bundle builder's glob matcher: the backtracking search, and what a pattern means. */
module Glob {
  import opened Bytes

  const STAR: Byte := 42
  const SLASH: Byte := 47
  const STARS: Bytes := [STAR, STAR]

  datatype Token = Literal(c: Byte) | Run | AnyRun  // one byte, `*`, and `**` or `**/`

  function Tokens(p: Bytes): seq<Token> {
    if p == [] then []
    else if p[0] != STAR then [Literal(p[0])] + Tokens(p[1..])
    else if |p| < 2 || p[1] != STAR then [Run] + Tokens(p[1..])
    else if |p| < 3 || p[2] != SLASH then [AnyRun] + Tokens(p[2..])
    else [AnyRun] + Tokens(p[3..])
  }

  // What a pattern means: a way to cut the path into one piece per token.

  ghost predicate Fits(t: Token, piece: Bytes) {
    match t
    case Literal(c) => piece == [c]
    case Run => SLASH !in piece
    case AnyRun => true
  }

  ghost predicate Cuts(ts: seq<Token>, pieces: seq<Bytes>, path: Bytes) {
    && |pieces| == |ts| && Flatten(pieces) == path
    && forall i :: 0 <= i < |ts| ==> Fits(ts[i], pieces[i])
  }

  ghost predicate Means(ts: seq<Token>, path: Bytes) {
    exists pieces :: Cuts(ts, pieces, path)
  }

  // The search.

  predicate Matches(ts: seq<Token>, path: Bytes)
    decreases |ts|, |path|
  {
    if ts == [] then path == []
    else match ts[0]
      case Literal(c) => path != [] && path[0] == c && Matches(ts[1..], path[1..])
      case Run => Matches(ts[1..], path) || (path != [] && path[0] != SLASH && Matches(ts, path[1..]))
      case AnyRun => Matches(ts[1..], path) || (path != [] && Matches(ts, path[1..]))
  }

  /** `globMatchAt`: recursion over the pattern, a loop over the positions a star may stop at. */
  method GlobMatchAt(pattern: Bytes, path: Bytes, patternPos: nat, pathPos: nat) returns (r: bool)
    requires patternPos <= |pattern| && pathPos <= |path|
    ensures r == Matches(Tokens(pattern[patternPos..]), path[pathPos..])
    decreases |pattern| - patternPos, 0
  {
    ghost var p := pattern[patternPos..];
    ghost var ts := Tokens(p);
    if patternPos == |pattern| { return pathPos == |path|; }
    if pattern[patternPos] == STAR {
      if patternPos + 1 < |pattern| && pattern[patternPos + 1] == STAR {
        var next := patternPos + 2;
        if next < |pattern| && pattern[next] == SLASH { next := next + 1; }
        assert ts[0] == AnyRun && ts[1..] == Tokens(pattern[next..]) by { DoubleStar(pattern, patternPos, next); }
        r := TryFrom(pattern, path, next, pathPos, AnyRun, ts);
        return;
      }
      assert ts[0] == Run && ts[1..] == Tokens(pattern[patternPos + 1..]) by {
        assert p[1..] == pattern[patternPos + 1..];
      }
      r := TryFrom(pattern, path, patternPos + 1, pathPos, Run, ts);
      return;
    }
    assert ts[0] == Literal(p[0]) && ts[1..] == Tokens(pattern[patternPos + 1..]) by {
      assert p[1..] == pattern[patternPos + 1..];
    }
    if pathPos == |path| || pattern[patternPos] != path[pathPos] { return false; }
    r := GlobMatchAt(pattern, path, patternPos + 1, pathPos + 1);
    assert path[pathPos..][1..] == path[pathPos + 1..];
  }

  /** The loop of a star: every end position in turn, up to the end of the path or, for `*`, the next slash. */
  method TryFrom(pattern: Bytes, path: Bytes, next: nat, pathPos: nat, star: Token, ghost ts: seq<Token>)
    returns (r: bool)
    requires next <= |pattern| && pathPos <= |path| && (star == Run || star == AnyRun)
    requires |ts| > 0 && ts[0] == star && ts[1..] == Tokens(pattern[next..])
    ensures r == Matches(ts, path[pathPos..])
    decreases |pattern| - next, 1
  {
    var pos := pathPos;
    while true
      invariant pathPos <= pos <= |path|
      invariant Matches(ts, path[pathPos..]) == Matches(ts, path[pos..])
      decreases |path| - pos
    {
      var rest := GlobMatchAt(pattern, path, next, pos);
      if rest { return true; }
      if pos == |path| || (star == Run && path[pos] == SLASH) { return false; }
      assert path[pos..][1..] == path[pos + 1..];
      pos := pos + 1;
    }
  }

  lemma DoubleStar(pattern: Bytes, at: nat, next: nat)
    requires at + 1 < |pattern| && pattern[at] == STAR && pattern[at + 1] == STAR
    requires next == if at + 2 < |pattern| && pattern[at + 2] == SLASH then at + 3 else at + 2
    ensures Tokens(pattern[at..]) == [AnyRun] + Tokens(pattern[next..])
  {
    var p := pattern[at..];
    assert p[2..] == pattern[at + 2..];
    if at + 2 < |pattern| { assert p[2] == pattern[at + 2]; }
    if next == at + 3 { assert p[3..] == pattern[next..]; }
  }

  // The search finds a cut exactly when there is one.

  lemma {:induction false} FoundIsMeant(ts: seq<Token>, path: Bytes) returns (pieces: seq<Bytes>)
    requires Matches(ts, path)
    ensures Cuts(ts, pieces, path)
    decreases |ts|, |path|
  {
    if ts == [] {
      pieces := [];
    } else if ts[0].Literal? {
      var rest := FoundIsMeant(ts[1..], path[1..]);
      pieces := [[path[0]]] + rest;
      assert pieces[1..] == rest;
    } else if Matches(ts[1..], path) {
      var rest := FoundIsMeant(ts[1..], path);
      pieces := [[]] + rest;
      assert pieces[1..] == rest;
      assert [] + path == path;
    } else {
      var rest := FoundIsMeant(ts, path[1..]);
      pieces := [[path[0]] + rest[0]] + rest[1..];
      assert pieces[1..] == rest[1..];
      assert path == [path[0]] + path[1..];
    }
  }

  lemma {:induction false} MeantIsFound(ts: seq<Token>, pieces: seq<Bytes>, path: Bytes)
    requires Cuts(ts, pieces, path)
    ensures Matches(ts, path)
    decreases |ts|, |path|
  {
    if ts != [] {
      var first, rest := pieces[0], pieces[1..];
      assert path == first + Flatten(rest);
      if first == [] {
        assert Flatten(rest) == path;
        assert Fits(ts[0], pieces[0]);
        assert forall i :: 0 <= i < |rest| ==> Fits(ts[1..][i], rest[i]);
        MeantIsFound(ts[1..], rest, path);
      } else {
        assert path[0] == first[0] && path[1..] == first[1..] + Flatten(rest);
        if ts[0].Literal? {
          assert Fits(ts[0], first);
          assert path[1..] == Flatten(rest);
          assert forall i :: 0 <= i < |rest| ==> Fits(ts[1..][i], rest[i]);
          MeantIsFound(ts[1..], rest, path[1..]);
        } else {
          var pieces' := [first[1..]] + rest;
          assert pieces'[1..] == rest;
          assert Fits(ts[0], first);
          assert forall i :: 0 <= i < |ts| ==> Fits(ts[i], pieces'[i]) by {
            assert Fits(ts[0], pieces'[0]);
            assert forall i :: 1 <= i < |ts| ==> pieces'[i] == pieces[i];
          }
          MeantIsFound(ts, pieces', path[1..]);
        }
      }
    }
  }

  /** The matcher accepts a path exactly when the path can be cut into pieces that fit the tokens. */
  lemma MatchesIff(pattern: Bytes, path: Bytes)
    ensures Matches(Tokens(pattern), path) <==> Means(Tokens(pattern), path)
  {
    var ts := Tokens(pattern);
    if Matches(ts, path) {
      var pieces := FoundIsMeant(ts, path);
    }
    if Means(ts, path) {
      var pieces :| Cuts(ts, pieces, path);
      MeantIsFound(ts, pieces, path);
    }
  }

  // What a pattern accepts, by its own bytes.

  predicate Accepts(pattern: Bytes, path: Bytes) {
    Matches(Tokens(pattern), path)
  }

  /** The empty pattern accepts nothing but the empty path. */
  lemma EmptyIff(path: Bytes)
    ensures Accepts([], path) <==> path == []
  {
  }

  /** A byte that is no star accepts itself. */
  lemma LiteralIff(c: Byte, p: Bytes, path: Bytes)
    requires c != 42
    ensures Accepts([c] + p, path) <==> path != [] && path[0] == c && Accepts(p, path[1..])
  {
    assert ([c] + p)[1..] == p;
    assert Tokens([c] + p)[1..] == Tokens(p);
  }

  /** A run of either kind followed by the rest. */
  lemma {:induction false} RunIff(t: Token, ts: seq<Token>, path: Bytes)
    requires t == Run || t == AnyRun
    ensures Matches([t] + ts, path) <==>
            exists k :: 0 <= k <= |path| && (t == Run ==> SLASH !in path[..k]) && Matches(ts, path[k..])
    decreases |path|
  {
    var all := [t] + ts;
    assert all[1..] == ts && path[0..] == path && path[..0] == [];
    if path != [] {
      RunIff(t, ts, path[1..]);
      forall k | 1 <= k <= |path|
        ensures path[k..] == path[1..][k - 1..] && path[..k] == [path[0]] + path[1..][..k - 1] {}
    }
    if Matches(all, path) {
      if Matches(ts, path) {
        assert Matches(ts, path[0..]);
      } else {
        var j :| 0 <= j <= |path| - 1 && (t == Run ==> SLASH !in path[1..][..j]) && Matches(ts, path[1..][j..]);
        assert path[j + 1..] == path[1..][j..] && path[..j + 1] == [path[0]] + path[1..][..j];
      }
    }
    if exists k :: 0 <= k <= |path| && (t == Run ==> SLASH !in path[..k]) && Matches(ts, path[k..]) {
      var k :| 0 <= k <= |path| && (t == Run ==> SLASH !in path[..k]) && Matches(ts, path[k..]);
      if k > 0 {
        assert path[0] in path[..k];
        assert Matches(ts, path[1..][k - 1..]);
      }
    }
  }

  /** A single star accepts any stretch without a slash. */
  lemma StarIff(p: Bytes, path: Bytes)
    requires p == [] || p[0] != 42
    ensures Accepts([42] + p, path) <==> exists k :: 0 <= k <= |path| && 47 !in path[..k] && Accepts(p, path[k..])
  {
    assert ([42] + p)[1..] == p;
    assert Tokens([42] + p) == [Run] + Tokens(p);
    RunIff(Run, Tokens(p), path);
    hide Matches, Tokens;
    assert forall k :: 0 <= k <= |path| ==> (Accepts(p, path[k..]) <==> Matches(Tokens(p), path[k..]));
  }

  /** Two stars accept anything at all, and take a slash that follows them with them. */
  lemma StarsIff(p: Bytes, path: Bytes)
    ensures (p == [] || p[0] != 47) ==>
              (Accepts([42, 42] + p, path) <==> exists k :: 0 <= k <= |path| && Accepts(p, path[k..]))
    ensures Accepts([42, 42, 47] + p, path) <==> exists k :: 0 <= k <= |path| && Accepts(p, path[k..])
  {
    assert [42, 42, 47] + p == STARS + [SLASH] + p && [42, 42] + p == STARS + p;
    StarsThen(p);
    RunIff(AnyRun, Tokens(p), path);
    hide Matches, Tokens;
    assert forall k :: 0 <= k <= |path| ==> (Accepts(p, path[k..]) <==> Matches(Tokens(p), path[k..]));
  }

  /** A single star does not reach into a directory; two stars do. */
  lemma StarStopsAtSlash(p: Bytes, path: Bytes)
    requires p != [] && 42 !in p && 47 !in p && path != [] && path[0] != 47
    ensures !Accepts([42] + p, path + [47] + p)
    ensures Accepts([42, 42, 47] + p, path + [47] + p)
  {
    var whole := path + [47] + p;
    assert p[0] in p;
    StarIff(p, whole);
    StarsIff(p, whole);
    LiteralsAccept(p, p);
    forall k | |path| < k <= |whole| ensures 47 in whole[..k] {
      assert whole[..k][|path|] == 47;
    }
    forall k | 0 <= k <= |path| ensures !Accepts(p, whole[k..]) {
      LiteralsAccept(p, whole[k..]);
      assert |whole[k..]| > |p|;
    }
    assert whole[|path| + 1..] == p;
  }

  lemma {:induction false} LiteralsAccept(p: Bytes, path: Bytes)
    requires 42 !in p
    ensures Accepts(p, path) <==> path == p
  {
    if p == [] {
      EmptyIff(path);
    } else {
      assert p[0] in p;
      LiteralsAccept(p[1..], if path == [] then [] else path[1..]);
      LiteralIff(p[0], p[1..], path);
      assert p == [p[0]] + p[1..];
      if path != [] { assert path == [path[0]] + path[1..]; }
    }
  }

  type Matcher = (Bytes, Bytes) -> bool

  /** The four laws, of any matcher. */
  ghost predicate Lawful(m: Matcher) {
    LawOfNothing(m) && LawOfLiterals(m) && LawOfStar(m) && LawOfStars(m)
  }

  ghost predicate LawOfNothing(m: Matcher) {
    forall s :: m([], s) <==> s == []
  }

  ghost predicate LawOfLiterals(m: Matcher) {
    forall p: Bytes, s: Bytes :: p != [] && p[0] != 42 ==> (m(p, s) <==> FirstAndRest(m, p, s))
  }

  /** The path begins with the pattern's first byte, and the rest is accepted. */
  ghost predicate FirstAndRest(m: Matcher, p: Bytes, s: Bytes) {
    p != [] && s != [] && s[0] == p[0] && m(p[1..], s[1..])
  }

  /** The pattern accepts what is left of the path behind some stretch, of any kind or without a slash. */
  ghost predicate SomeTail(m: Matcher, p: Bytes, s: Bytes, any: bool) {
    exists k :: 0 <= k <= |s| && (any || 47 !in s[..k]) && m(p, s[k..])
  }

  ghost predicate LawOfStar(m: Matcher) {
    forall p: Bytes, s: Bytes :: p != [] && p[0] == 42 && (|p| == 1 || p[1] != 42) ==>
      (m(p, s) <==> SomeTail(m, p[1..], s, false))
  }

  ghost predicate LawOfStars(m: Matcher) {
    forall p: Bytes, s: Bytes :: |p| >= 2 && p[0] == 42 && p[1] == 42 ==>
      (m(p, s) <==> SomeTail(m, if |p| > 2 && p[2] == 47 then p[3..] else p[2..], s, true))
  }

  /** The laws fix the matcher: whatever obeys them accepts exactly what `globMatch` accepts. */
  lemma {:induction false} LawsDecide(m: Matcher, pattern: Bytes, path: Bytes)
    requires Lawful(m)
    ensures m(pattern, path) <==> Accepts(pattern, path)
    decreases |pattern|, 0
  {
    hide Accepts, LawOfNothing, LawOfLiterals, LawOfStar, LawOfStars, SomeTail;
    if pattern == [] {
      EmptyIff(path);
      ByNothing(m, path);
    } else if pattern[0] != 42 {
      var c, p := pattern[0], pattern[1..];
      assert pattern == [c] + p;
      LiteralIff(c, p, path);
      ByLiteral(m, pattern, path);
      if path != [] { LawsDecide(m, p, path[1..]); }
    } else if |pattern| == 1 || pattern[1] != 42 {
      var p := pattern[1..];
      assert pattern == [42] + p;
      StarIff(p, path);
      ByStar(m, pattern, path);
      TailsAgree(m, p, path, false);
    } else {
      var slash := |pattern| > 2 && pattern[2] == 47;
      var p := if slash then pattern[3..] else pattern[2..];
      assert pattern == if slash then [42, 42, 47] + p else [42, 42] + p;
      StarsIff(p, path);
      ByStars(m, pattern, path);
      TailsAgree(m, p, path, true);
    }
  }

  lemma ByNothing(m: Matcher, s: Bytes)
    requires LawOfNothing(m)
    ensures m([], s) <==> s == []
  {
  }

  lemma ByLiteral(m: Matcher, p: Bytes, s: Bytes)
    requires LawOfLiterals(m) && p != [] && p[0] != 42
    ensures m(p, s) <==> FirstAndRest(m, p, s)
  {
    hide FirstAndRest;
  }

  lemma ByStar(m: Matcher, p: Bytes, s: Bytes)
    requires LawOfStar(m) && p != [] && p[0] == 42 && (|p| == 1 || p[1] != 42)
    ensures m(p, s) <==> SomeTail(m, p[1..], s, false)
  {
    hide SomeTail;
  }

  lemma ByStars(m: Matcher, p: Bytes, s: Bytes)
    requires LawOfStars(m) && |p| >= 2 && p[0] == 42 && p[1] == 42
    ensures m(p, s) <==> SomeTail(m, if |p| > 2 && p[2] == 47 then p[3..] else p[2..], s, true)
  {
    hide SomeTail;
  }

  lemma {:induction false} TailsAgree(m: Matcher, p: Bytes, path: Bytes, any: bool)
    requires Lawful(m)
    ensures SomeTail(m, p, path, any) <==>
            exists k :: 0 <= k <= |path| && (any || 47 !in path[..k]) && Accepts(p, path[k..])
    decreases |p|, 1
  {
    hide Accepts, Lawful;
    forall k | 0 <= k <= |path| ensures m(p, path[k..]) <==> Accepts(p, path[k..]) {
      LawsDecide(m, p, path[k..]);
    }
  }

  // `**/p` against `**p`.

  /** A shortest path a token list accepts: its literals. */
  function Shortest(ts: seq<Token>): Bytes {
    if ts == [] then []
    else (if ts[0].Literal? then [ts[0].c] else []) + Shortest(ts[1..])
  }

  lemma {:induction false} ShortestMatches(ts: seq<Token>)
    ensures Matches(ts, Shortest(ts))
  {
    if ts != [] {
      ShortestMatches(ts[1..]);
      if ts[0].Literal? {
        assert Shortest(ts)[1..] == Shortest(ts[1..]);
      } else {
        assert Shortest(ts) == Shortest(ts[1..]);
      }
    }
  }

  lemma {:induction false} NothingShorter(ts: seq<Token>, path: Bytes)
    requires Matches(ts, path)
    ensures |Shortest(ts)| <= |path|
    decreases |ts|, |path|
  {
    if ts != [] {
      if ts[0].Literal? {
        NothingShorter(ts[1..], path[1..]);
      } else if Matches(ts[1..], path) {
        NothingShorter(ts[1..], path);
      } else {
        NothingShorter(ts, path[1..]);
      }
    }
  }

  lemma StarsThen(p: Bytes)
    ensures Tokens(STARS + [SLASH] + p) == [AnyRun] + Tokens(p)
    ensures Tokens(STARS + p) == [AnyRun] + Tokens(if p != [] && p[0] == SLASH then p[1..] else p)
  {
    var a, b := STARS + [SLASH] + p, STARS + p;
    assert a[0..] == a && b[0..] == b;
    DoubleStar(a, 0, 3);
    assert a[3..] == p;
    if p != [] && p[0] == SLASH {
      DoubleStar(b, 0, 3);
      assert b[3..] == p[1..];
    } else {
      DoubleStar(b, 0, 2);
      assert b[2..] == p;
    }
  }

  /** One more literal makes every accepted path longer. */
  lemma LongerWithSlash(ts: seq<Token>)
    ensures Matches([AnyRun] + ts, Shortest(ts)) && !Matches([AnyRun] + ([Literal(SLASH)] + ts), Shortest(ts))
  {
    var a, b := [AnyRun] + ([Literal(SLASH)] + ts), [AnyRun] + ts;
    assert b[1..] == ts && a[1..] == [Literal(SLASH)] + ts && a[1..][1..] == ts;
    ShortestMatches(ts);
    assert Matches(b, Shortest(ts));
    assert Shortest(a) == Shortest(a[1..]) && Shortest(a[1..]) == [SLASH] + Shortest(ts);
    if Matches(a, Shortest(ts)) { NothingShorter(a, Shortest(ts)); }
  }

  /** A pattern behind two stars and a slash and the same pattern behind the two stars alone accept the
      same paths if and only if it does not itself begin with a slash. */
  lemma SlashAfterStars(p: Bytes)
    ensures (forall path :: Matches(Tokens(STARS + [SLASH] + p), path) <==> Matches(Tokens(STARS + p), path))
            <==> !(p != [] && p[0] == SLASH)
  {
    StarsThen(p);
    if p != [] && p[0] == SLASH {
      assert Tokens(p) == [Literal(SLASH)] + Tokens(p[1..]);
      LongerWithSlash(Tokens(p[1..]));
    }
  }
}
