/** The java.lang.String operations that the guardrail and the prompt builder
    rely on, over strings as sequences of characters: startsWith, indexOf and
    contains, replace, split with a plain-text separator and the default
    limit, integer-to-decimal conversion and equalsIgnoreCase. */
module JavaStrings {

  type String = seq<char>

  datatype Option<+T> = None | Some(value: T)

  /** Java's `int`: tenant and employee ids are 32-bit signed values. */
  newtype Int32 = x: int | -0x8000_0000 <= x < 0x8000_0000

  // ---------------------------------------------------------------------
  // startsWith, endsWith

  predicate StartsWith(s: String, prefix: String) {
    |prefix| <= |s| && s[..|prefix|] == prefix
  }

  predicate EndsWith(s: String, suffix: String) {
    |suffix| <= |s| && s[|s| - |suffix|..] == suffix
  }

  // ---------------------------------------------------------------------
  // indexOf, contains

  /** `p` occurs in `s` starting at index `i`. */
  predicate OccursAt(s: String, p: String, i: int) {
    0 <= i && i + |p| <= |s| && s[i..i + |p|] == p
  }

  /** `s.indexOf(p, from)`, with None standing for -1: the leftmost
      occurrence of `p` at or after `from`. */
  function IndexOf(s: String, p: String, from: nat): (r: Option<nat>)
    decreases |s| - from
    ensures r.Some? ==> from <= r.value && OccursAt(s, p, r.value)
    ensures r.Some? ==> forall j :: from <= j < r.value ==> !OccursAt(s, p, j)
    ensures r.None? ==> forall j :: from <= j ==> !OccursAt(s, p, j)
  {
    if |s| < from + |p| then None
    else if s[from..from + |p|] == p then Some(from)
    else IndexOf(s, p, from + 1)
  }

  /** `s.contains(p)`. */
  predicate Contains(s: String, p: String) {
    IndexOf(s, p, 0).Some?
  }

  lemma OccursAtContains(s: String, p: String, i: int)
    requires OccursAt(s, p, i)
    ensures Contains(s, p)
  {
  }

  /** Containment passes from an infix `t` of `s` to `s` itself. */
  lemma ContainsWithin(s: String, t: String, a: nat, p: String)
    requires a + |t| <= |s| && s[a..a + |t|] == t
    requires Contains(t, p)
    ensures Contains(s, p)
  {
    var i := IndexOf(t, p, 0).value;
    var u, v := s[a..a + |t|][i..i + |p|], s[a + i..a + i + |p|];
    forall j | 0 <= j < |p| ensures u[j] == v[j] {
    }
    assert u == v;
    OccursAtContains(s, p, a + i);
  }

  /** A part of `s` that contains `p` and starts at or after `n` puts `p`
      into the tail of `s` from `n`. */
  lemma ContainsWithinTail(s: String, t: String, a: nat, n: nat, p: String)
    requires n <= a && a + |t| <= |s| && s[a..a + |t|] == t
    requires Contains(t, p)
    ensures Contains(s[n..], p)
  {
    assert s[n..][a - n..a - n + |t|] == t;
    ContainsWithin(s[n..], t, a - n, p);
  }

  lemma ContainsTransitive(s: String, t: String, p: String)
    requires Contains(s, t) && Contains(t, p)
    ensures Contains(s, p)
  {
    var a := IndexOf(s, t, 0).value;
    ContainsWithin(s, t, a, p);
  }

  /** `p` itself sits between `a` and `b`. */
  lemma ContainsMiddle(a: String, p: String, b: String)
    ensures Contains(a + p + b, p)
  {
    var s := a + p + b;
    assert s[|a|..|a| + |p|] == p;
    OccursAtContains(s, p, |a|);
  }

  lemma ContainsStart(p: String, b: String)
    ensures Contains(p + b, p)
  {
    assert (p + b)[0..|p|] == p;
    OccursAtContains(p + b, p, 0);
  }

  lemma OccursAtEnd(a: String, p: String)
    ensures OccursAt(a + p, p, |a|)
  {
    assert (a + p)[|a|..|a| + |p|] == p;
  }

  lemma OccursInLonger(s: String, p: String, i: int, t: String)
    requires OccursAt(s, p, i)
    ensures OccursAt(s + t, p, i)
  {
    assert (s + t)[i..i + |p|] == s[i..i + |p|];
  }

  /** Two texts that differ at position `k` cannot both occur at `i`. */
  lemma OccursExcludes(s: String, x: String, y: String, i: int, k: nat)
    requires OccursAt(s, x, i) && k < |x| && k < |y| && x[k] != y[k]
    ensures !OccursAt(s, y, i)
  {
    assert s[i..i + |x|][k] == s[i + k] == x[k];
    assert i + |y| <= |s| ==> s[i..i + |y|][k] == s[i + k];
  }

  lemma ContainsEnd(a: String, p: String)
    ensures Contains(a + p, p)
  {
    assert (a + p)[|a|..|a| + |p|] == p;
    OccursAtContains(a + p, p, |a|);
  }

  // ---------------------------------------------------------------------
  // replace

  /** `s.replace(target, replacement)` for a non-empty target: the
      occurrences of `target` are found left to right, each search resuming
      after the previous match, and each is replaced by `replacement`. */
  function Replace(s: String, target: String, replacement: String): String
    requires |target| > 0
    decreases |s|
  {
    match IndexOf(s, target, 0)
    case None => s
    case Some(k) => s[..k] + replacement + Replace(s[k + |target|..], target, replacement)
  }

  /** Without an occurrence of the target, replace changes nothing. */
  lemma ReplaceAbsent(s: String, target: String, replacement: String)
    requires |target| > 0 && !Contains(s, target)
    ensures Replace(s, target, replacement) == s
  {
  }

  /** A replacement at least as long as the target never shortens the text. */
  lemma {:induction false} ReplaceGrows(s: String, target: String, replacement: String)
    requires |target| > 0 && |target| <= |replacement|
    ensures |Replace(s, target, replacement)| >= |s|
    decreases |s|
  {
    match IndexOf(s, target, 0)
    case None =>
    case Some(k) => ReplaceGrows(s[k + |target|..], target, replacement);
  }

  /** A character absent from the text and from the replacement is absent
      from the result. */
  lemma {:induction false} ReplaceKeepsCharOut(s: String, target: String, replacement: String, c: char)
    requires |target| > 0 && c !in s && c !in replacement
    ensures c !in Replace(s, target, replacement)
    decreases |s|
  {
    match IndexOf(s, target, 0)
    case None =>
    case Some(k) =>
      CutAround(s, k, |target|);
      ReplaceKeepsCharOut(s[k + |target|..], target, replacement, c);
  }

  /** A prefix of the text that cannot hold the first character of the target
      is left in place. */
  lemma ReplaceKeepsPrefix(s: String, target: String, replacement: String, prefix: String)
    requires |target| > 0 && StartsWith(s, prefix) && target[0] !in prefix
    ensures StartsWith(Replace(s, target, replacement), prefix)
  {
    match IndexOf(s, target, 0)
    case None =>
    case Some(k) =>
      assert s[k] == s[k..k + |target|][0] == target[0];
      assert forall i :: 0 <= i < |prefix| ==> s[i] == s[..|prefix|][i] == prefix[i];
      assert k >= |prefix|;
      var r := Replace(s, target, replacement);
      assert r[..|prefix|] == s[..k][..|prefix|];
  }

  /** When the target occurs, the replacement shows up in the result. */
  lemma ReplaceInserts(s: String, target: String, replacement: String)
    requires |target| > 0 && Contains(s, target)
    ensures Contains(Replace(s, target, replacement), replacement)
  {
    var k := IndexOf(s, target, 0).value;
    ContainsMiddle(s[..k], replacement, Replace(s[k + |target|..], target, replacement));
  }
  lemma OccursInPrefix(s: String, p: String, i: int, n: nat)
    requires OccursAt(s, p, i) && i + |p| <= n <= |s|
    ensures Contains(s[..n], p)
  {
    assert s[..n][i..i + |p|] == s[i..i + |p|];
    OccursAtContains(s[..n], p, i);
  }

  lemma OccursInTail(s: String, p: String, i: int, n: nat)
    requires OccursAt(s, p, i) && n <= i
    ensures Contains(s[n..], p)
  {
    assert s[n..][i - n..i - n + |p|] == s[i..i + |p|];
    OccursAtContains(s[n..], p, i - n);
  }

  lemma ContainsLeft(a: String, b: String, p: String)
    requires Contains(a, p)
    ensures Contains(a + b, p)
  {
    var j := IndexOf(a, p, 0).value;
    OccursInLonger(a, p, j, b);
    OccursAtContains(a + b, p, j);
  }

  lemma ContainsRight(a: String, b: String, p: String)
    requires Contains(b, p)
    ensures Contains(a + b, p)
  {
    var j := IndexOf(b, p, 0).value;
    assert (a + b)[|a| + j..|a| + j + |p|] == b[j..j + |p|];
    OccursAtContains(a + b, p, |a| + j);
  }

  /** Occurrences of two texts without a common character do not overlap. */
  lemma OccurrencesApart(s: String, target: String, k: int, p: String, i: int)
    requires |target| > 0 && |p| > 0 && OccursAt(s, target, k) && OccursAt(s, p, i)
    requires forall j :: 0 <= j < |p| ==> p[j] !in target
    ensures i + |p| <= k || k + |target| <= i
  {
    forall m | i <= m < i + |p| ensures s[m] !in target {
      assert s[m] == s[i..i + |p|][m - i] == p[m - i];
    }
    forall m | k <= m < k + |target| ensures s[m] in target {
      assert s[m] == s[k..k + |target|][m - k] == target[m - k];
    }
    assert s[k] in target && s[i] !in target;
  }

  /** replace unfolded once, at the first occurrence of the target. */
  lemma ReplaceStep(s: String, target: String, replacement: String)
    requires |target| > 0 && IndexOf(s, target, 0).Some?
    ensures var k := IndexOf(s, target, 0).value;
            Replace(s, target, replacement) ==
              (s[..k] + replacement) + Replace(s[k + |target|..], target, replacement)
  {
  }

  /** An occurrence before the first target stays in front of it. */
  lemma ReplaceKeepsEarlier(s: String, target: String, replacement: String, p: String, i: nat)
    requires |target| > 0 && IndexOf(s, target, 0).Some?
    requires OccursAt(s, p, i) && i + |p| <= IndexOf(s, target, 0).value
    ensures Contains(Replace(s, target, replacement), p)
  {
    var k := IndexOf(s, target, 0).value;
    var tail := Replace(s[k + |target|..], target, replacement);
    ReplaceStep(s, target, replacement);
    OccursInPrefix(s, p, i, k);
    ContainsLeft(s[..k], replacement, p);
    ContainsLeft(s[..k] + replacement, tail, p);
  }

  /** What survives in the rest after the first target survives in all. */
  lemma ReplaceKeepsLater(s: String, target: String, replacement: String, p: String)
    requires |target| > 0 && IndexOf(s, target, 0).Some?
    requires Contains(Replace(s[IndexOf(s, target, 0).value + |target|..], target, replacement), p)
    ensures Contains(Replace(s, target, replacement), p)
  {
    var k := IndexOf(s, target, 0).value;
    var head, tail := s[..k] + replacement, Replace(s[k + |target|..], target, replacement);
    ContainsRight(head, tail, p);
    ReplaceStep(s, target, replacement);
  }

  /** A text that shares no character with the target survives replace. */
  lemma {:induction false} ReplaceKeepsOccurrence(s: String, target: String, replacement: String, p: String, i: nat)
    requires |target| > 0 && |p| > 0 && OccursAt(s, p, i)
    requires forall j :: 0 <= j < |p| ==> p[j] !in target
    ensures Contains(Replace(s, target, replacement), p)
    decreases |s|
  {
    match IndexOf(s, target, 0)
    case None =>
      OccursAtContains(s, p, i);
    case Some(k) =>
      OccurrencesApart(s, target, k, p, i);
      if i + |p| <= k {
        ReplaceKeepsEarlier(s, target, replacement, p, i);
      } else {
        var rest := s[k + |target|..];
        assert rest[i - k - |target|..i - k - |target| + |p|] == s[i..i + |p|];
        ReplaceKeepsOccurrence(rest, target, replacement, p, i - k - |target|);
        ReplaceKeepsLater(s, target, replacement, p);
      }
  }



  // ---------------------------------------------------------------------
  // split

  /** The pieces of `s` around the occurrences of `sep`, found left to right
      as for replace; one more piece than there are occurrences. */
  function Pieces(s: String, sep: String): (ps: seq<String>)
    requires |sep| > 0
    decreases |s|
    ensures |ps| >= 1
  {
    match IndexOf(s, sep, 0)
    case None => [s]
    case Some(k) => [s[..k]] + Pieces(s[k + |sep|..], sep)
  }

  /** The pieces put back together with `joint` between neighbours. */
  function Intercalate(ps: seq<String>, joint: String): String
    requires |ps| >= 1
  {
    if |ps| == 1 then ps[0] else ps[0] + joint + Intercalate(ps[1..], joint)
  }

  /** Putting the separator back between the pieces gives the text again:
      the pieces are exactly the text between the occurrences. */
  lemma {:induction false} PiecesRejoin(s: String, sep: String)
    requires |sep| > 0
    ensures Intercalate(Pieces(s, sep), sep) == s
    decreases |s|
  {
    if IndexOf(s, sep, 0).Some? {
      var k := IndexOf(s, sep, 0).value;
      var rest := s[k + |sep|..];
      PiecesStep(s, sep);
      PiecesRejoin(rest, sep);
      IntercalateStep(Pieces(s, sep), sep);
      assert s[k..k + |sep|] == sep;
      CutAround(s, k, |sep|);
    } else {
      assert Pieces(s, sep) == [s];
    }
  }

  lemma IntercalateStep(ps: seq<String>, joint: String)
    requires |ps| >= 2
    ensures Intercalate(ps, joint) == ps[0] + joint + Intercalate(ps[1..], joint)
  {
  }

  lemma CutAround(s: String, k: nat, n: nat)
    requires k + n <= |s|
    ensures s == s[..k] + s[k..k + n] + s[k + n..]
  {
  }

  /** replace rewrites every occurrence found left to right and keeps the
      text between them: it joins the pieces with the replacement. */
  lemma {:induction false} ReplaceIsIntercalate(s: String, target: String, replacement: String)
    requires |target| > 0
    ensures Replace(s, target, replacement) == Intercalate(Pieces(s, target), replacement)
    decreases |s|
  {
    match IndexOf(s, target, 0)
    case None =>
    case Some(k) =>
      ReplaceIsIntercalate(s[k + |target|..], target, replacement);
      assert Pieces(s, target)[1..] == Pieces(s[k + |target|..], target);
  }

  /** Java's split with limit 0 removes every trailing empty piece. */
  function DropTrailingEmpty(ps: seq<String>): (r: seq<String>)
    ensures r <= ps
    ensures |r| > 0 ==> r[|r| - 1] != []
    ensures forall i :: |r| <= i < |ps| ==> ps[i] == []
  {
    if |ps| > 0 && ps[|ps| - 1] == [] then DropTrailingEmpty(ps[..|ps| - 1]) else ps
  }

  /** `s.split(sep)` for a separator without regular-expression
      metacharacters: without a match the array is `{s}`; otherwise the
      pieces, trailing empty ones removed. */
  function Split(s: String, sep: String): seq<String>
    requires |sep| > 0
  {
    if !Contains(s, sep) then [s] else DropTrailingEmpty(Pieces(s, sep))
  }

  /** `s.split(sep)[1]`; None where Java throws
      ArrayIndexOutOfBoundsException. */
  function SplitSecond(s: String, sep: String): Option<String>
    requires |sep| > 0
  {
    var parts := Split(s, sep);
    if |parts| >= 2 then Some(parts[1]) else None
  }

  /** `t` is made of back-to-back copies of `sep` (possibly none). */
  predicate IsRepetition(t: String, sep: String)
    requires |sep| > 0
    decreases |t|
  {
    t == [] || (StartsWith(t, sep) && IsRepetition(t[|sep|..], sep))
  }

  predicate AllEmpty(ps: seq<String>) {
    forall i :: 0 <= i < |ps| ==> ps[i] == []
  }

  /** The pieces of `t` are all empty exactly when `t` repeats `sep`. */
  lemma {:induction false} PiecesAllEmpty(t: String, sep: String)
    requires |sep| > 0
    ensures AllEmpty(Pieces(t, sep)) <==> IsRepetition(t, sep)
    decreases |t|
  {
    var ps := Pieces(t, sep);
    if IndexOf(t, sep, 0).None? {
      assert ps == [t];
      assert !OccursAt(t, sep, 0);
      assert !StartsWith(t, sep);
      assert ps[0] == t;
      assert AllEmpty(ps) <==> t == [];
    } else {
      var k := IndexOf(t, sep, 0).value;
      var rest := t[k + |sep|..];
      PiecesStep(t, sep);
      PiecesAllEmpty(rest, sep);
      AllEmptyFirstAndRest(ps);
      assert ps[0] == [] <==> k == 0;
      assert k == 0 <==> StartsWith(t, sep);
      assert k == 0 ==> rest == t[|sep|..];
    }
  }

  /** Pieces unfolded once at the first occurrence of `sep`. */
  lemma PiecesStep(t: String, sep: String)
    requires |sep| > 0 && IndexOf(t, sep, 0).Some?
    ensures var k, ps := IndexOf(t, sep, 0).value, Pieces(t, sep);
            && |ps| >= 2 && ps[0] == t[..k]
            && ps[1..] == Pieces(t[k + |sep|..], sep)
  {
  }

  lemma AllEmptyFirstAndRest(ps: seq<String>)
    requires |ps| >= 1
    ensures AllEmpty(ps) <==> ps[0] == [] && AllEmpty(ps[1..])
  {
    if ps[0] == [] && AllEmpty(ps[1..]) {
      forall i | 0 <= i < |ps| ensures ps[i] == [] {
        if i > 0 {
          assert ps[i] == ps[1..][i - 1];
        }
      }
    }
  }

  /** After dropping trailing empty pieces, a second element exists exactly
      when some piece after the first is non-empty, and it is that piece. */
  lemma DropTrailingSecond(ps: seq<String>)
    requires |ps| >= 1
    ensures |DropTrailingEmpty(ps)| >= 2 <==> !AllEmpty(ps[1..])
    ensures |DropTrailingEmpty(ps)| >= 2 ==> DropTrailingEmpty(ps)[1] == ps[1]
  {
    var r := DropTrailingEmpty(ps);
    if |r| >= 2 {
      assert ps[1..][|r| - 2] == ps[|r| - 1] == r[|r| - 1] != [];
    }
    if !AllEmpty(ps[1..]) {
      var i :| 0 <= i < |ps[1..]| && ps[1..][i] != [];
      assert ps[i + 1] != [];
    }
  }

  /** After the first piece come the pieces of the text that follows the
      first occurrence. */
  lemma LaterPieces(s: String, sep: String)
    requires |sep| > 0 && Contains(s, sep)
    ensures Pieces(s, sep)[1..] == Pieces(s[IndexOf(s, sep, 0).value + |sep|..], sep)
  {
  }

  /** The first piece of `t`: the text before the first occurrence of `sep`,
      or all of `t`. */
  lemma FirstPieceSpec(t: String, sep: String)
    requires |sep| > 0
    ensures var p0 := Pieces(t, sep)[0];
            && StartsWith(t, p0)
            && !Contains(p0, sep)
            && (|p0| == |t| || OccursAt(t, sep, |p0|))
  {
    var p0 := Pieces(t, sep)[0];
    match IndexOf(t, sep, 0)
    case None =>
      assert p0 == t;
    case Some(j) =>
      assert p0 == t[..j];
      forall i | OccursAt(p0, sep, i) ensures OccursAt(t, sep, i) {
        assert t[i..i + |sep|] == p0[i..i + |sep|];
      }
  }

  /** `s.split(sep)[1]` throws exactly when `sep` does not occur in `s` or
      only copies of `sep` follow its first occurrence. */
  lemma SplitSecondFails(s: String, sep: String)
    requires |sep| > 0
    ensures SplitSecond(s, sep).None? <==>
              (IndexOf(s, sep, 0).None? || IsRepetition(s[IndexOf(s, sep, 0).value + |sep|..], sep))
  {
    if Contains(s, sep) {
      var rest := s[IndexOf(s, sep, 0).value + |sep|..];
      LaterPieces(s, sep);
      PiecesAllEmpty(rest, sep);
      DropTrailingSecond(Pieces(s, sep));
    }
  }

  lemma SplitSecondNeedsSeparator(s: String, sep: String)
    requires |sep| > 0 && SplitSecond(s, sep).Some?
    ensures Contains(s, sep)
  {
  }

  lemma SplitSecondIsSecondPiece(s: String, sep: String)
    requires |sep| > 0 && Contains(s, sep) && |Split(s, sep)| >= 2
    ensures Split(s, sep)[1] == Pieces(s, sep)[1]
  {
    DropTrailingSecond(Pieces(s, sep));
  }

  lemma SecondPieceFollowsFirstMatch(s: String, sep: String)
    requires |sep| > 0 && Contains(s, sep)
    ensures |Pieces(s, sep)| >= 2
    ensures Pieces(s, sep)[1] == Pieces(s[IndexOf(s, sep, 0).value + |sep|..], sep)[0]
  {
    LaterPieces(s, sep);
    assert Pieces(s, sep)[1] == Pieces(s, sep)[1..][0];
  }

  /** When it exists, `s.split(sep)[1]` is the first piece of the text after
      the first occurrence of `sep`. */
  /** Where `s.split(sep)[1]` sits in `s`. */
  function SecondStart(s: String, sep: String): nat
    requires |sep| > 0 && IndexOf(s, sep, 0).Some?
  {
    IndexOf(s, sep, 0).value + |sep|
  }

  lemma SplitSecondIsNextPiece(s: String, sep: String)
    requires |sep| > 0 && SplitSecond(s, sep).Some?
    ensures IndexOf(s, sep, 0).Some?
    ensures SplitSecond(s, sep).value == Pieces(s[IndexOf(s, sep, 0).value + |sep|..], sep)[0]
  {
    SplitSecondNeedsSeparator(s, sep);
    SplitSecondIsSecondPiece(s, sep);
    SecondPieceFollowsFirstMatch(s, sep);
  }

  lemma PrefixOfSuffix(s: String, a: nat, x: String)
    requires a <= |s| && StartsWith(s[a..], x)
    ensures a + |x| <= |s| && s[a..a + |x|] == x
  {
    assert s[a..a + |x|] == s[a..][..|x|];
  }

  lemma OccursInSuffix(s: String, a: nat, p: String, j: nat)
    requires a <= |s| && OccursAt(s[a..], p, j)
    ensures OccursAt(s, p, a + j)
  {
    assert s[a + j..a + j + |p|] == s[a..][j..j + |p|];
  }

  /** The first piece of the text from index `a` on, placed within `s`. */
  lemma FirstPieceAt(s: String, a: nat, sep: String)
    requires |sep| > 0 && a <= |s|
    ensures var seg := Pieces(s[a..], sep)[0];
            && a + |seg| <= |s| && s[a..a + |seg|] == seg
            && !Contains(seg, sep)
            && (a + |seg| == |s| || OccursAt(s, sep, a + |seg|))
  {
    var seg := Pieces(s[a..], sep)[0];
    FirstPieceSpec(s[a..], sep);
    PrefixOfSuffix(s, a, seg);
    if a + |seg| < |s| {
      OccursInSuffix(s, a, sep, |seg|);
    }
  }

  /** `s.split(sep)[1]` lies within `s`, right after the first occurrence of
      `sep`, and holds no `sep`. */
  lemma SplitSecondSpec(s: String, sep: String)
    requires |sep| > 0 && SplitSecond(s, sep).Some?
    ensures IndexOf(s, sep, 0).Some?
    ensures var a, seg := SecondStart(s, sep), SplitSecond(s, sep).value;
            && a + |seg| <= |s| && s[a..a + |seg|] == seg
            && !Contains(seg, sep)
  {
    SplitSecondIsNextPiece(s, sep);
    FirstPieceAt(s, SecondStart(s, sep), sep);
  }

  /** Part of an occurrence is an occurrence of that part of the pattern. */
  lemma OccursAtPart(s: String, p: String, k: nat, i: nat, j: nat)
    requires OccursAt(s, p, k) && i <= j <= |p|
    ensures OccursAt(s, p[i..j], k + i)
  {
    var u, v := s[k + i..k + j], p[i..j];
    forall m | 0 <= m < j - i ensures u[m] == v[m] {
      assert u[m] == s[k + i + m] == s[k..k + |p|][i + m];
    }
  }

  // ---------------------------------------------------------------------
  // int to decimal text and back

  function DigitChar(d: nat): (c: char)
    requires d < 10
    ensures '0' <= c <= '9' && (c as int) - ('0' as int) == d
  {
    (('0' as int) + d) as char
  }

  /** Decimal digits of a natural number, most significant first, without
      leading zeros. */
  function NatToString(n: nat): (r: String)
    decreases n
    ensures |r| >= 1
    ensures forall i :: 0 <= i < |r| ==> '0' <= r[i] <= '9'
  {
    if n < 10 then [DigitChar(n)] else NatToString(n / 10) + [DigitChar(n % 10)]
  }

  /** `String.valueOf(x)` / `"" + x` for an int: an optional minus sign
      followed by the decimal digits of its magnitude. */
  function IntToString(x: int): (r: String)
    ensures |r| >= 1
    ensures forall i :: 0 <= i < |r| ==> r[i] == '-' || '0' <= r[i] <= '9'
  {
    if x < 0 then "-" + NatToString(-x) else NatToString(x)
  }

  /** Reads decimal digits back (the partner of NatToString). */
  function ParseNat(s: String): nat
    requires forall i :: 0 <= i < |s| ==> '0' <= s[i] <= '9'
  {
    if s == [] then 0
    else ParseNat(s[..|s| - 1]) * 10 + ((s[|s| - 1] as int) - ('0' as int))
  }

  /** `Integer.parseInt` on the texts IntToString produces. */
  function ParseInt(s: String): int
    requires forall i :: 0 <= i < |s| ==> s[i] == '-' || '0' <= s[i] <= '9'
    requires forall i :: 1 <= i < |s| ==> '0' <= s[i] <= '9'
  {
    if |s| > 0 && s[0] == '-' then 0 - ParseNat(s[1..]) else ParseNat(s)
  }

  lemma {:induction false} NatToStringRoundTrip(n: nat)
    ensures ParseNat(NatToString(n)) == n
    decreases n
  {
    if n >= 10 {
      NatToStringRoundTrip(n / 10);
      var r := NatToString(n);
      assert r[..|r| - 1] == NatToString(n / 10);
    }
  }

  /** The decimal text of an int reads back as that int, so the tenant id
      written into SQL and prompts is unambiguous. */
  lemma IntToStringRoundTrip(x: int)
    ensures var r := IntToString(x);
            && (forall i :: 1 <= i < |r| ==> '0' <= r[i] <= '9')
            && ParseInt(r) == x
  {
    if x < 0 {
      NatToStringRoundTrip(-x);
      assert IntToString(x)[1..] == NatToString(-x);
    } else {
      NatToStringRoundTrip(x);
    }
  }

  // ---------------------------------------------------------------------
  // equalsIgnoreCase

  function ToUpperAscii(c: char): char {
    if 'a' <= c <= 'z' then ((c as int) - 32) as char else c
  }

  function ToLowerAscii(c: char): char {
    if 'A' <= c <= 'Z' then ((c as int) + 32) as char else c
  }

  /** Java's per-character test in `regionMatches(true, ...)`: equal, equal
      after upper-casing, or equal after upper- then lower-casing (letters
      folded as in ASCII). */
  predicate CharEqualsIgnoreCase(a: char, b: char) {
    a == b
    || ToUpperAscii(a) == ToUpperAscii(b)
    || ToLowerAscii(ToUpperAscii(a)) == ToLowerAscii(ToUpperAscii(b))
  }

  /** `s.equalsIgnoreCase(t)`: same length and pairwise equal ignoring case. */
  predicate EqualsIgnoreCase(s: String, t: String) {
    |s| == |t| && forall i :: 0 <= i < |s| ==> CharEqualsIgnoreCase(s[i], t[i])
  }

  /** Every ASCII upper-case letter lowered, a reference for EqualsIgnoreCase. */
  function LowerAscii(s: String): (r: String)
    ensures |r| == |s|
    ensures forall i :: 0 <= i < |s| ==> r[i] == ToLowerAscii(s[i])
  {
    if s == [] then [] else [ToLowerAscii(s[0])] + LowerAscii(s[1..])
  }

  predicate IsLowerWord(w: String) {
    forall i :: 0 <= i < |w| ==> 'a' <= w[i] <= 'z'
  }

  /** Comparing with a lower-case word ignoring case is the same as
      lower-casing and comparing exactly. */
  lemma EqualsIgnoreCaseLower(s: String, w: String)
    requires IsLowerWord(w)
    ensures EqualsIgnoreCase(s, w) <==> LowerAscii(s) == w
  {
    if |s| == |w| {
      forall i | 0 <= i < |s|
        ensures CharEqualsIgnoreCase(s[i], w[i]) <==> ToLowerAscii(s[i]) == w[i]
      {
      }
      if LowerAscii(s) != w {
        var i :| 0 <= i < |s| && LowerAscii(s)[i] != w[i];
      }
    }
  }
}
