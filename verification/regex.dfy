/** A backtracking matcher for the fragment of JavaScript regular expressions the
    extension uses: single-character classes, greedy `?` and `*` on them, `\b`, `^`, `$`
    and capture groups. A pattern is a sequence of atoms; `c+` is written `c c*` and
    `x{n}` as `n` copies of `x`, which is how the JavaScript engine treats them too.
    `Run` explores the alternatives in the order the JavaScript engine does (a greedy
    quantifier first tries to take one more character), so the first success it finds
    is the match JavaScript reports; `Search` tries the start positions left to right. */
module Regex {
  import opened Wrappers
  import opened Text

  /** A set of characters a single atom may consume. */
  datatype Class =
    | Exactly(c: char)     // a literal character
    | Folded(c: char)      // a literal character under the `i` flag
    | Digit                // \d
    | NonZeroDigit         // [1-9]
    | Space                // \s
    | Separator            // [\s.-]
    | NotComma             // [^,]
    | NotLineEnd           // .

  /** Case folding under the `i` flag (without the `u` flag) as it acts on the letters the
      patterns use: ASCII letters and `é`. Characters at or above U+0080 never fold onto
      ASCII ones, so `ſ` does not match `s`. */
  function Canon(c: char): char {
    if 'a' <= c <= 'z' then (c as int - 32) as char
    else if c == '\U{00E9}' then '\U{00C9}'
    else c
  }

  predicate Holds(k: Class, c: char) {
    match k
    case Exactly(x) => c == x
    case Folded(x) => Canon(c) == Canon(x)
    case Digit => IsDigit(c)
    case NonZeroDigit => '1' <= c <= '9'
    case Space => IsSpace(c)
    case Separator => IsSpace(c) || c == '.' || c == '-'
    case NotComma => c != ','
    case NotLineEnd => !IsLineTerminator(c)
  }

  datatype Atom =
    | One(k: Class)     // exactly one character of the class
    | Maybe(k: Class)   // k?, greedy
    | Many(k: Class)    // k*, greedy
    | Boundary          // \b
    | Start             // ^ (no `m` flag: the start of the input)
    | End               // $ (no `m` flag: the end of the input)
    | Mark              // an edge of a capture group; groups are consecutive pairs of marks

  type Pattern = seq<Atom>

  /** `\b` holds at `i` when exactly one of the characters around `i` is a word character. */
  predicate IsBoundary(s: string, i: nat)
    requires i <= |s|
  {
    (i > 0 && IsWordChar(s[i - 1])) != (i < |s| && IsWordChar(s[i]))
  }

  /** Where a successful attempt ended, and the positions its marks recorded. */
  datatype Hit = Hit(end: nat, marks: seq<nat>)

  predicate MarksWithin(marks: seq<nat>, lo: nat, hi: nat) {
    && (forall j :: 0 <= j < |marks| ==> lo <= marks[j] <= hi)
    && (forall j, k :: 0 <= j < k < |marks| ==> marks[j] <= marks[k])
  }

  /** The first way, in the JavaScript engine's order, in which `p` matches `s` from `i`. */
  function Run(p: Pattern, s: string, i: nat): (r: Option<Hit>)
    requires i <= |s|
    ensures r.Some? ==> i <= r.value.end <= |s| && MarksWithin(r.value.marks, i, r.value.end)
    decreases |s| - i, |p|
  {
    if |p| == 0 then Some(Hit(i, []))
    else
      match p[0]
      case One(k) => if i < |s| && Holds(k, s[i]) then Run(p[1..], s, i + 1) else None
      case Maybe(k) =>
        var taken := if i < |s| && Holds(k, s[i]) then Run(p[1..], s, i + 1) else None;
        if taken.Some? then taken else Run(p[1..], s, i)
      case Many(k) =>
        var more := if i < |s| && Holds(k, s[i]) then Run(p, s, i + 1) else None;
        if more.Some? then more else Run(p[1..], s, i)
      case Boundary => if IsBoundary(s, i) then Run(p[1..], s, i) else None
      case Start => if i == 0 then Run(p[1..], s, i) else None
      case End => if i == |s| then Run(p[1..], s, i) else None
      case Mark =>
        match Run(p[1..], s, i)
        case None => None
        case Some(h) => Some(Hit(h.end, [i] + h.marks))
  }

  /** A match: where it starts and ends, and the positions of its capture-group edges. */
  datatype Match = Match(start: nat, end: nat, marks: seq<nat>)

  /** The leftmost match starting at or after `from`. */
  function SearchFrom(p: Pattern, s: string, from: nat): (r: Option<Match>)
    requires from <= |s|
    ensures r.Some? ==>
      && from <= r.value.start <= r.value.end <= |s|
      && Run(p, s, r.value.start) == Some(Hit(r.value.end, r.value.marks))
      && forall j :: from <= j < r.value.start ==> Run(p, s, j).None?
    ensures r.None? ==> forall j :: from <= j <= |s| ==> Run(p, s, j).None?
    decreases |s| - from
  {
    match Run(p, s, from)
    case Some(h) => Some(Match(from, h.end, h.marks))
    case None => if from == |s| then None else SearchFrom(p, s, from + 1)
  }

  /** `s.match(p)` without the `g` flag (and `[0]` of it with the flag): the leftmost match. */
  function Search(p: Pattern, s: string): (r: Option<Match>)
    ensures r.Some? ==>
      && r.value.start <= r.value.end <= |s|
      && MarksWithin(r.value.marks, r.value.start, r.value.end)
      && Run(p, s, r.value.start) == Some(Hit(r.value.end, r.value.marks))
      && forall j :: 0 <= j < r.value.start ==> Run(p, s, j).None?
    ensures r.None? <==> forall j :: 0 <= j <= |s| ==> Run(p, s, j).None?
  {
    SearchFrom(p, s, 0)
  }

  /** The text a match covers (`match[0]`). */
  function Matched(s: string, m: Match): string {
    if m.start <= m.end <= |s| then s[m.start..m.end] else ""
  }

  /** Capture group `g` (numbered from 1, as `match[g]`). */
  function Group(s: string, m: Match, g: nat): string {
    var a := 2 * g - 2;
    if 1 <= g && a + 1 < |m.marks| && m.marks[a] <= m.marks[a + 1] <= |s|
    then s[m.marks[a]..m.marks[a + 1]]
    else ""
  }

  // ----- Building patterns -----

  /** A case-sensitive literal. */
  function Lit(w: string): (p: Pattern)
    ensures |p| == |w| && forall j :: 0 <= j < |w| ==> p[j] == One(Exactly(w[j]))
  {
    seq(|w|, j requires 0 <= j < |w| => One(Exactly(w[j])))
  }

  /** A literal under the `i` flag. */
  function FoldedLit(w: string): (p: Pattern)
    ensures |p| == |w| && forall j :: 0 <= j < |w| ==> p[j] == One(Folded(w[j]))
  {
    seq(|w|, j requires 0 <= j < |w| => One(Folded(w[j])))
  }

  /** `k{n}`. */
  function Times(k: Class, n: nat): (p: Pattern)
    ensures |p| == n && forall j :: 0 <= j < n ==> p[j] == One(k)
  {
    seq(n, j => One(k))
  }

  // ----- Reasoning about runs -----

  /** The end of the longest stretch of `k` characters starting at `i`. */
  function Stretch(k: Class, s: string, i: nat): (e: nat)
    requires i <= |s|
    ensures i <= e <= |s|
    ensures forall j {:trigger Holds(k, s[j])} :: i <= j < e ==> Holds(k, s[j])
    ensures e < |s| ==> !Holds(k, s[e])
    decreases |s| - i
  {
    if i < |s| && Holds(k, s[i]) then Stretch(k, s, i + 1) else i
  }

  /** The first success of `q` at `j`, `j - 1`, ..., `lo`: a greedy star giving back one
      character at a time. */
  function Backtrack(q: Pattern, s: string, lo: nat, j: nat): Option<Hit>
    requires lo <= j <= |s|
    decreases j - lo
  {
    match Run(q, s, j)
    case Some(h) => Some(h)
    case None => if j == lo then None else Backtrack(q, s, lo, j - 1)
  }

  lemma {:induction false} BacktrackLowest(q: Pattern, s: string, lo: nat, j: nat)
    requires lo < j <= |s|
    ensures Backtrack(q, s, lo, j) ==
      match Backtrack(q, s, lo + 1, j)
      case Some(h) => Some(h)
      case None => Run(q, s, lo)
    decreases j - lo
  {
    if Run(q, s, j).None? && j - 1 > lo {
      BacktrackLowest(q, s, lo, j - 1);
    }
  }

  /** `k*` followed by `q` tries `q` after the longest stretch of `k` first, then after
      each shorter one. */
  lemma {:induction false} ManyBacktracks(k: Class, q: Pattern, s: string, i: nat)
    requires i <= |s|
    ensures Run([Many(k)] + q, s, i) == Backtrack(q, s, i, Stretch(k, s, i))
    decreases |s| - i
  {
    var p := [Many(k)] + q;
    assert p[0] == Many(k) && p[1..] == q;
    if i < |s| && Holds(k, s[i]) {
      ManyBacktracks(k, q, s, i + 1);
      BacktrackLowest(q, s, i, Stretch(k, s, i));
    }
  }

  /** When `q` cannot succeed inside the stretch, `k*` behaves as "take the whole stretch". */
  lemma ManyTakesAll(k: Class, q: Pattern, s: string, i: nat)
    requires i <= |s|
    requires forall j :: i <= j < Stretch(k, s, i) ==> Run(q, s, j).None?
    ensures Run([Many(k)] + q, s, i) == Run(q, s, Stretch(k, s, i))
  {
    ManyBacktracks(k, q, s, i);
    var e := Stretch(k, s, i);
    if Run(q, s, e).None? && e > i {
      BacktrackNone(q, s, i, e - 1);
    }
  }

  lemma {:induction false} BacktrackNone(q: Pattern, s: string, lo: nat, j: nat)
    requires lo <= j <= |s|
    requires forall x :: lo <= x <= j ==> Run(q, s, x).None?
    ensures Backtrack(q, s, lo, j).None?
    decreases j - lo
  {
    if j > lo {
      BacktrackNone(q, s, lo, j - 1);
    }
  }

  /** A pattern that starts with a one-character atom fails wherever that character is absent. */
  lemma OneFails(k: Class, q: Pattern, s: string, j: nat)
    requires j <= |s|
    requires j == |s| || !Holds(k, s[j])
    ensures Run([One(k)] + q, s, j).None?
  {
    assert ([One(k)] + q)[0] == One(k);
  }

  lemma OneSteps(k: Class, q: Pattern, s: string, j: nat)
    requires j <= |s|
    ensures Run([One(k)] + q, s, j) ==
      if j < |s| && Holds(k, s[j]) then Run(q, s, j + 1) else None
  {
    assert ([One(k)] + q)[0] == One(k) && ([One(k)] + q)[1..] == q;
  }

  lemma MarkSteps(q: Pattern, s: string, j: nat)
    requires j <= |s|
    ensures Run([Mark] + q, s, j) ==
      match Run(q, s, j)
      case None => None
      case Some(h) => Some(Hit(h.end, [j] + h.marks))
  {
    assert ([Mark] + q)[0] == Mark && ([Mark] + q)[1..] == q;
  }

  /** An anchored pattern can only match at the start of the input. */
  lemma AnchoredSearch(q: Pattern, s: string)
    ensures Search([Start] + q, s) ==
      match Run(q, s, 0)
      case None => None
      case Some(h) => Some(Match(0, h.end, h.marks))
  {
    var p := [Start] + q;
    assert p[0] == Start && p[1..] == q;
    if Run(p, s, 0).None? {
      forall j | 0 <= j <= |s| ensures Run(p, s, j).None? { }
    }
  }

  // ----- Tracing a successful run -----

  predicate MarkFree(p: Pattern) {
    forall j :: 0 <= j < |p| ==> p[j] != Mark
  }

  lemma MarkFreeAppend(a: Pattern, b: Pattern)
    requires MarkFree(a) && MarkFree(b)
    ensures MarkFree(a + b)
  {
    forall j | 0 <= j < |a + b| ensures (a + b)[j] != Mark {
      if j < |a| {
        assert (a + b)[j] == a[j];
      } else {
        assert (a + b)[j] == b[j - |a|];
      }
    }
  }

  lemma LitMarkFree(w: string)
    ensures MarkFree(Lit(w)) && MarkFree(FoldedLit(w))
  {
  }

  /** Every character an atom of `p` can consume satisfies `P`. */
  ghost predicate Consumes(p: Pattern, P: char -> bool) {
    forall j, c ::
      (0 <= j < |p| && (p[j].One? || p[j].Maybe? || p[j].Many?) && Holds(p[j].k, c)) ==> P(c)
  }

  lemma {:induction false} BacktrackSome(q: Pattern, s: string, lo: nat, j: nat)
    requires lo <= j <= |s|
    requires Backtrack(q, s, lo, j).Some?
    ensures exists x :: lo <= x <= j && Run(q, s, x) == Backtrack(q, s, lo, j)
    decreases j - lo
  {
    if Run(q, s, j).None? {
      BacktrackSome(q, s, lo, j - 1);
    }
  }

  /** A successful run of `pre + rest`, where `pre` records no marks, is a run of `pre` over
      some stretch of characters allowed by `pre`, followed by a successful run of `rest`. */
  lemma {:induction false} SplitRun(pre: Pattern, rest: Pattern, s: string, i: nat, P: char -> bool)
    requires i <= |s|
    requires MarkFree(pre) && Consumes(pre, P)
    requires Run(pre + rest, s, i).Some?
    ensures exists j ::
      (i <= j <= |s| && Run(rest, s, j) == Run(pre + rest, s, i) && forall x :: i <= x < j ==> P(s[x]))
    decreases |s| - i, |pre|
  {
    var p := pre + rest;
    if |pre| == 0 {
      assert p == rest;
    } else {
      assert p[0] == pre[0] && p[1..] == pre[1..] + rest;
      assert MarkFree(pre[1..]) && Consumes(pre[1..], P) by {
        forall j | 0 <= j < |pre[1..]| ensures pre[1..][j] == pre[j + 1] { }
      }
      match pre[0]
      case One(k) =>
        assert Holds(k, s[i]) ==> P(s[i]) by { assert Consumes(pre, P); assert pre[0].k == k; }
        SplitRun(pre[1..], rest, s, i + 1, P);
      case Maybe(k) =>
        assert i < |s| && Holds(k, s[i]) ==> P(s[i]) by { assert pre[0].k == k; }
        if i < |s| && Holds(k, s[i]) && Run(pre[1..] + rest, s, i + 1).Some? {
          SplitRun(pre[1..], rest, s, i + 1, P);
        } else {
          SplitRun(pre[1..], rest, s, i, P);
        }
      case Many(k) =>
        assert i < |s| && Holds(k, s[i]) ==> P(s[i]) by { assert pre[0].k == k; }
        if i < |s| && Holds(k, s[i]) && Run(p, s, i + 1).Some? {
          SplitRun(pre, rest, s, i + 1, P);
        } else {
          SplitRun(pre[1..], rest, s, i, P);
        }
      case Boundary =>
        SplitRun(pre[1..], rest, s, i, P);
      case Start =>
        SplitRun(pre[1..], rest, s, i, P);
      case End =>
        SplitRun(pre[1..], rest, s, i, P);
    }
  }

  /** In a successful run of `pre (k rest) post`, where only the two marks shown record
      positions, the group is non-empty, starts with a `k` character and holds only
      characters allowed by `k` and `rest`. */
  lemma CaptureShape(pre: Pattern, k: Class, rest: Pattern, post: Pattern, s: string, i: nat,
                     P: char -> bool)
    requires i <= |s|
    requires MarkFree(pre) && MarkFree(rest) && Consumes(rest, P)
    requires forall c :: Holds(k, c) ==> P(c)
    requires Run(pre + ([Mark] + ([One(k)] + (rest + ([Mark] + post)))), s, i).Some?
    ensures var h := Run(pre + ([Mark] + ([One(k)] + (rest + ([Mark] + post)))), s, i).value;
      && |h.marks| >= 2
      && i <= h.marks[0] < h.marks[1] <= |s|
      && Holds(k, s[h.marks[0]])
      && forall x :: h.marks[0] <= x < h.marks[1] ==> P(s[x])
  {
    var tail := [Mark] + ([One(k)] + (rest + ([Mark] + post)));
    var h := Run(pre + tail, s, i).value;
    SplitRun(pre, tail, s, i, c => true);
    var j :| i <= j <= |s| && Run(tail, s, j) == Some(h);
    GroupShape(k, rest, post, s, j, P);
  }

  /** The same, for a run that starts at the opening mark. */
  lemma GroupShape(k: Class, rest: Pattern, post: Pattern, s: string, j: nat, P: char -> bool)
    requires j <= |s|
    requires MarkFree(rest) && Consumes(rest, P)
    requires forall c :: Holds(k, c) ==> P(c)
    requires Run([Mark] + ([One(k)] + (rest + ([Mark] + post))), s, j).Some?
    ensures var h := Run([Mark] + ([One(k)] + (rest + ([Mark] + post))), s, j).value;
      && |h.marks| >= 2
      && j == h.marks[0] < h.marks[1] <= |s|
      && Holds(k, s[h.marks[0]])
      && forall x :: h.marks[0] <= x < h.marks[1] ==> P(s[x])
  {
    MarkSteps([One(k)] + (rest + ([Mark] + post)), s, j);
    OneSteps(k, rest + ([Mark] + post), s, j);
    var h1 := Run(rest + ([Mark] + post), s, j + 1).value;
    SplitRun(rest, [Mark] + post, s, j + 1, P);
    var y :| j + 1 <= y <= |s| && Run([Mark] + post, s, y) == Some(h1)
      && forall x :: j + 1 <= x < y ==> P(s[x]);
    MarkSteps(post, s, y);
  }

  /** `k{n}` followed by `rest` checks the next `n` characters, then runs `rest`. */
  lemma {:induction false} TimesSteps(k: Class, n: nat, rest: Pattern, s: string, i: nat)
    requires i <= |s|
    ensures Run(Times(k, n) + rest, s, i) ==
      if i + n <= |s| && forall x :: i <= x < i + n ==> Holds(k, s[x])
      then Run(rest, s, i + n) else None
    decreases n
  {
    if n > 0 {
      assert Times(k, n) + rest == [One(k)] + (Times(k, n - 1) + rest);
      OneSteps(k, Times(k, n - 1) + rest, s, i);
      if i < |s| && Holds(k, s[i]) {
        TimesSteps(k, n - 1, rest, s, i + 1);
      }
    } else {
      assert Times(k, n) + rest == rest;
    }
  }

  /** The stretch of `\s` characters is exactly what `trim` would remove at its start. */
  lemma {:induction false} StretchTrims(s: string, i: nat)
    requires i <= |s|
    ensures TrimStart(s[i..]) == s[Stretch(Space, s, i)..]
    decreases |s| - i
  {
    if i < |s| && IsSpace(s[i]) {
      assert s[i..][1..] == s[i + 1..];
      StretchTrims(s, i + 1);
    }
  }

  /** The longest stretch of `k` from `i` ends at the first character that is not `k`. */
  lemma {:induction false} StretchTo(k: Class, s: string, i: nat, j: nat)
    requires i <= j <= |s|
    requires forall x :: i <= x < j ==> Holds(k, s[x])
    requires j == |s| || !Holds(k, s[j])
    ensures Stretch(k, s, i) == j
    decreases j - i
  {
    if i < j {
      StretchTo(k, s, i + 1, j);
    }
  }

  /** A greedy star that closes a group keeps the whole stretch. */
  lemma ManyThenMark(k: Class, s: string, i: nat)
    requires i <= |s|
    ensures Run([Many(k)] + ([Mark] + []), s, i) ==
      Some(Hit(Stretch(k, s, i), [Stretch(k, s, i)]))
  {
    var e := Stretch(k, s, i);
    ManyBacktracks(k, [Mark] + [], s, i);
    MarkSteps([], s, e);
    assert [e] + [] == [e];
  }

  /** A case-sensitive literal consumes exactly its own characters. */
  lemma {:induction false} LitSteps(w: string, q: Pattern, s: string, i: nat)
    requires i <= |s|
    ensures Run(Lit(w) + q, s, i) ==
      if i + |w| <= |s| && s[i..i + |w|] == w then Run(q, s, i + |w|) else None
    decreases |w|
  {
    if |w| == 0 {
      assert Lit(w) + q == q;
    } else {
      assert Lit(w) + q == [One(Exactly(w[0]))] + (Lit(w[1..]) + q);
      OneSteps(Exactly(w[0]), Lit(w[1..]) + q, s, i);
      if i < |s| && s[i] == w[0] {
        LitSteps(w[1..], q, s, i + 1);
        if i + |w| <= |s| {
          assert s[i..i + |w|] == [s[i]] + s[i + 1..i + |w|];
          assert w == [w[0]] + w[1..];
        }
      } else if i + |w| <= |s| {
        assert s[i..i + |w|][0] == s[i];
      }
    }
  }

  /** The characters of `s` from `i` on fold, one by one, to those of `w`. */
  predicate FoldsAt(w: string, s: string, i: nat) {
    i + |w| <= |s| && forall x :: 0 <= x < |w| ==> Canon(s[i + x]) == Canon(w[x])
  }

  /** A literal under the `i` flag consumes characters that fold to its own. */
  lemma {:induction false} FoldedLitSteps(w: string, q: Pattern, s: string, i: nat)
    requires i <= |s|
    ensures Run(FoldedLit(w) + q, s, i) == if FoldsAt(w, s, i) then Run(q, s, i + |w|) else None
    decreases |w|
  {
    if |w| == 0 {
      assert FoldedLit(w) + q == q;
    } else {
      FoldedLitCons(w, q);
      OneSteps(Folded(w[0]), FoldedLit(w[1..]) + q, s, i);
      FoldsAtCons(w, s, i);
      if i < |s| && Holds(Folded(w[0]), s[i]) {
        FoldedLitSteps(w[1..], q, s, i + 1);
      }
    }
  }

  /** A folded literal is its first character followed by the rest. */
  lemma FoldedLitCons(w: string, q: Pattern)
    requires |w| > 0
    ensures FoldedLit(w) + q == [One(Folded(w[0]))] + (FoldedLit(w[1..]) + q)
  {
    assert FoldedLit(w) == [One(Folded(w[0]))] + FoldedLit(w[1..]);
  }

  /** Folding at `i` is folding the first character, then the rest at `i + 1`. */
  lemma FoldsAtCons(w: string, s: string, i: nat)
    requires |w| > 0
    ensures FoldsAt(w, s, i) <==> i < |s| && Canon(s[i]) == Canon(w[0]) && FoldsAt(w[1..], s, i + 1)
  {
    if FoldsAt(w, s, i) {
      assert Canon(s[i + 0]) == Canon(w[0]);
      forall x | 0 <= x < |w| - 1 ensures Canon(s[i + 1 + x]) == Canon(w[1..][x]) {
        assert Canon(s[i + (x + 1)]) == Canon(w[x + 1]);
      }
    }
    if i < |s| && Canon(s[i]) == Canon(w[0]) && FoldsAt(w[1..], s, i + 1) {
      forall x | 0 <= x < |w| ensures Canon(s[i + x]) == Canon(w[x]) {
        if x > 0 {
          assert Canon(s[i + 1 + (x - 1)]) == Canon(w[1..][x - 1]);
        }
      }
    }
  }

  /** A pattern that succeeds at `i` and nowhere before is found there. */
  lemma SearchAt(p: Pattern, s: string, i: nat)
    requires i <= |s|
    requires Run(p, s, i).Some?
    requires forall j :: 0 <= j < i ==> Run(p, s, j).None?
    ensures Search(p, s) == Some(Match(i, Run(p, s, i).value.end, Run(p, s, i).value.marks))
  {
    SearchFromAt(p, s, 0, i);
  }

  lemma {:induction false} SearchFromAt(p: Pattern, s: string, from: nat, i: nat)
    requires from <= i <= |s|
    requires Run(p, s, i).Some?
    requires forall j :: from <= j < i ==> Run(p, s, j).None?
    ensures SearchFrom(p, s, from) == Some(Match(i, Run(p, s, i).value.end, Run(p, s, i).value.marks))
    decreases i - from
  {
    if from < i {
      assert Run(p, s, from).None?;
      SearchFromAt(p, s, from + 1, i);
    }
  }

  /** `k+` followed by `q`, over a maximal run of `k` characters from `j` to `e` inside which
      `q` cannot start: the run is consumed whole. */
  lemma PlusThen(k: Class, k2: Class, q: Pattern, s: string, j: nat, e: nat)
    requires j < e <= |s|
    requires forall x :: j <= x < e ==> Holds(k, s[x]) && !Holds(k2, s[x])
    requires e == |s| || !Holds(k, s[e])
    ensures Run([One(k)] + ([Many(k)] + ([One(k2)] + q)), s, j) == Run([One(k2)] + q, s, e)
  {
    OneSteps(k, [Many(k)] + ([One(k2)] + q), s, j);
    StretchTo(k, s, j + 1, e);
    forall x | j + 1 <= x < e ensures Run([One(k2)] + q, s, x).None? {
      OneFails(k2, q, s, x);
    }
    ManyTakesAll(k, [One(k2)] + q, s, j + 1);
  }

  /** `k?` followed by `q`: the character is taken when `k` allows it and `q` then succeeds. */
  lemma MaybeSteps(k: Class, q: Pattern, s: string, j: nat)
    requires j <= |s|
    ensures Run([Maybe(k)] + q, s, j) ==
      var taken := if j < |s| && Holds(k, s[j]) then Run(q, s, j + 1) else None;
      if taken.Some? then taken else Run(q, s, j)
  {
    assert ([Maybe(k)] + q)[0] == Maybe(k) && ([Maybe(k)] + q)[1..] == q;
  }

  /** `k*` followed by a character of a class disjoint from `k`: the stretch is consumed whole. */
  lemma ManyThenOne(k: Class, c: Class, q: Pattern, s: string, i: nat)
    requires i <= |s|
    requires forall x: char :: Holds(k, x) ==> !Holds(c, x)
    ensures Run([Many(k)] + ([One(c)] + q), s, i) == Run([One(c)] + q, s, Stretch(k, s, i))
  {
    forall x | i <= x < Stretch(k, s, i) ensures Run([One(c)] + q, s, x).None? {
      OneFails(c, q, s, x);
    }
    ManyTakesAll(k, [One(c)] + q, s, i);
  }

  /** The same with a group opening before that character. */
  lemma ManyThenGroup(k: Class, c: Class, q: Pattern, s: string, i: nat)
    requires i <= |s|
    requires forall x: char :: Holds(k, x) ==> !Holds(c, x)
    ensures Run([Many(k)] + ([Mark] + ([One(c)] + q)), s, i) ==
      Run([Mark] + ([One(c)] + q), s, Stretch(k, s, i))
  {
    forall x | i <= x < Stretch(k, s, i) ensures Run([Mark] + ([One(c)] + q), s, x).None? {
      MarkSteps([One(c)] + q, s, x);
      OneFails(c, q, s, x);
    }
    ManyTakesAll(k, [Mark] + ([One(c)] + q), s, i);
  }

  /** `k*` followed by a literal whose first character `k` does not allow. */
  lemma ManyThenLit(k: Class, w: string, q: Pattern, s: string, i: nat)
    requires i <= |s| && |w| > 0 && !Holds(k, w[0])
    ensures Run([Many(k)] + (Lit(w) + q), s, i) == Run(Lit(w) + q, s, Stretch(k, s, i))
  {
    forall x | i <= x < Stretch(k, s, i) ensures Run(Lit(w) + q, s, x).None? {
      LitSteps(w, q, s, x);
    }
    ManyTakesAll(k, Lit(w) + q, s, i);
  }

  /** `k*` and then a literal `k` cannot start. */
  lemma ManyLitSteps(k: Class, w: string, q: Pattern, s: string, i: nat)
    requires i <= |s| && |w| > 0 && !Holds(k, w[0])
    ensures Run([Many(k)] + (Lit(w) + q), s, i) ==
      var n := Stretch(k, s, i);
      if n + |w| <= |s| && s[n..n + |w|] == w then Run(q, s, n + |w|) else None
  {
    ManyThenLit(k, w, q, s, i);
    LitSteps(w, q, s, Stretch(k, s, i));
  }

  /** A literal and then one character of class `k`. */
  lemma LitOneSteps(w: string, k: Class, q: Pattern, s: string, i: nat)
    requires i <= |s|
    ensures Run(Lit(w) + ([One(k)] + q), s, i) ==
      if i + |w| < |s| && s[i..i + |w|] == w && Holds(k, s[i + |w|]) then Run(q, s, i + |w| + 1) else None
  {
    LitSteps(w, [One(k)] + q, s, i);
    if i + |w| <= |s| {
      OneSteps(k, q, s, i + |w|);
    }
  }

  /** `k*` and then one character of a class disjoint from `k`. */
  lemma ManyOneSteps(k: Class, c: Class, q: Pattern, s: string, i: nat)
    requires i <= |s|
    requires forall x: char :: Holds(k, x) ==> !Holds(c, x)
    ensures Run([Many(k)] + ([One(c)] + q), s, i) ==
      var a := Stretch(k, s, i);
      if a < |s| && Holds(c, s[a]) then Run(q, s, a + 1) else None
  {
    ManyThenOne(k, c, q, s, i);
    OneSteps(c, q, s, Stretch(k, s, i));
  }

  /** `k*` closing a group, followed by a `q` that cannot start on a `k`. */
  lemma ManyMarkThen(k: Class, q: Pattern, s: string, i: nat)
    requires i <= |s|
    requires forall x :: i <= x < |s| && Holds(k, s[x]) ==> Run(q, s, x).None?
    ensures Run([Many(k)] + ([Mark] + q), s, i) ==
      match Run(q, s, Stretch(k, s, i))
      case None => None
      case Some(h) => Some(Hit(h.end, [Stretch(k, s, i)] + h.marks))
  {
    forall x | i <= x < Stretch(k, s, i) ensures Run([Mark] + q, s, x).None? {
      MarkSteps(q, s, x);
    }
    ManyTakesAll(k, [Mark] + q, s, i);
    MarkSteps(q, s, Stretch(k, s, i));
  }

  /** `(k+)` followed by a `q` that cannot start on a `k`: the group is the maximal run of
      `k` from `j`, and `q` runs after it. */
  lemma PlusGroupThen(k: Class, q: Pattern, s: string, j: nat)
    requires j <= |s|
    requires forall x :: j < x < |s| && Holds(k, s[x]) ==> Run(q, s, x).None?
    ensures Run([Mark] + ([One(k)] + ([Many(k)] + ([Mark] + q))), s, j) ==
      if j < |s| && Holds(k, s[j]) then
        var e := Stretch(k, s, j + 1);
        match Run(q, s, e)
        case None => None
        case Some(h) => Some(Hit(h.end, [j, e] + h.marks))
      else None
  {
    MarkSteps([One(k)] + ([Many(k)] + ([Mark] + q)), s, j);
    OneSteps(k, [Many(k)] + ([Mark] + q), s, j);
    if j < |s| && Holds(k, s[j]) {
      var e := Stretch(k, s, j + 1);
      ManyMarkThen(k, q, s, j + 1);
      if Run(q, s, e).Some? {
        assert [j] + ([e] + Run(q, s, e).value.marks) == [j, e] + Run(q, s, e).value.marks;
      }
    }
  }

  /** A stretch that starts on a `k` is the stretch from the next character. */
  lemma StretchStep(k: Class, s: string, i: nat)
    requires i < |s| && Holds(k, s[i])
    ensures Stretch(k, s, i) == Stretch(k, s, i + 1)
  {
  }

  /** White space, a colon, white space and a group opening on a digit. */
  lemma ColonThenDigits(q: Pattern, s: string, i: nat)
    requires i <= |s|
    ensures Run([Many(Space)] + ([One(Exactly(':'))] + ([Many(Space)] + ([Mark] + ([One(Digit)] + q)))), s, i) ==
      var a := Stretch(Space, s, i);
      if a < |s| && s[a] == ':' then Run([Mark] + ([One(Digit)] + q), s, Stretch(Space, s, a + 1)) else None
  {
    ManyOneSteps(Space, Exactly(':'), [Many(Space)] + ([Mark] + ([One(Digit)] + q)), s, i);
    var a := Stretch(Space, s, i);
    if a < |s| && s[a] == ':' {
      ManyThenGroup(Space, Digit, q, s, a + 1);
    }
  }

  /** `(k+)` closing the pattern: the group is the maximal run of `k` from `j`. */
  lemma PlusGroup(k: Class, s: string, j: nat)
    requires j <= |s|
    ensures Run([Mark] + ([One(k)] + ([Many(k)] + ([Mark] + []))), s, j) ==
      if j < |s| && Holds(k, s[j])
      then Some(Hit(Stretch(k, s, j + 1), [j, Stretch(k, s, j + 1)])) else None
  {
    MarkSteps([One(k)] + ([Many(k)] + ([Mark] + [])), s, j);
    OneSteps(k, [Many(k)] + ([Mark] + []), s, j);
    if j < |s| && Holds(k, s[j]) {
      ManyThenMark(k, s, j + 1);
      assert [j] + [Stretch(k, s, j + 1)] == [j, Stretch(k, s, j + 1)];
    }
  }
}
