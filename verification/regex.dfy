/** The part of Python's `re` module the cleaning cascade uses.

    Every pattern the pipeline compiles is an alternation (`A|B|C`) of sequences of
    single-character classes, each under a quantifier: `{m}`, `{m,n}`, `*`, `+`, `?`
    or the lazy `*?`. For such patterns the backtracking matcher is exact: a greedy
    repeat tries its longest possible count first and gives characters back one at a
    time, a lazy repeat tries its shortest count first and takes one more character at
    a time, and the first combination that lets the rest of the sequence match wins.
    Alternatives are tried in order at the same position. `re.sub` and `re.search`
    scan for the leftmost match; `re.sub` then resumes after it. */
module Regex {
  import opened Results
  import opened Text

  /** One member of a character class. */
  datatype Atom =
    | Ch(c: char)               // a literal character
    | Range(lo: char, hi: char) // `A-Z`
    | Space                     // `\s`
    | Word                      // `\w`
    | Digit                     // `\d`
    | NotNewline                // `.`, which matches everything except a newline

  predicate AtomHas(a: Atom, c: char) {
    match a
    case Ch(x) => c == x
    case Range(lo, hi) => lo <= c <= hi
    case Space => IsSpace(c)
    case Word => IsWordChar(c)
    case Digit => IsDigit(c)
    case NotNewline => c != '\n'
  }

  /** Membership in a character class `[...]`, given as the list of its members. */
  predicate InClass(cls: seq<Atom>, c: char)
    decreases |cls|
  {
    |cls| > 0 && (AtomHas(cls[0], c) || InClass(cls[1..], c))
  }

  datatype Bound = AtMost(n: nat) | Unbounded

  /** A character class repeated at least `min` and at most `max` times. */
  datatype Node = Node(cls: seq<Atom>, min: nat, max: Bound, greedy: bool)

  /** Alternatives, tried in order; each is a sequence of nodes. */
  type Pattern = seq<seq<Node>>

  // Quantifier shorthands, named after the regex syntax they stand for.

  /** A single literal character. */
  function Once(c: char): Node { Node([Ch(c)], 1, AtMost(1), true) }
  /** `[cls]{n}` */
  function Times(cls: seq<Atom>, n: nat): Node { Node(cls, n, AtMost(n), true) }
  /** `[cls]{m,n}` */
  function Between(cls: seq<Atom>, m: nat, n: nat): Node { Node(cls, m, AtMost(n), true) }
  /** `[cls]{m,}`; `+` is `AtLeast(cls, 1)` and `*` is `AtLeast(cls, 0)`. */
  function AtLeast(cls: seq<Atom>, m: nat): Node { Node(cls, m, Unbounded, true) }
  /** `[cls]?` */
  function Optional(cls: seq<Atom>): Node { Node(cls, 0, AtMost(1), true) }
  /** `[cls]*?` */
  function LazyStar(cls: seq<Atom>): Node { Node(cls, 0, Unbounded, false) }

  /** An escaped literal string: one single-character node per character. */
  function Literal(w: string): (nodes: seq<Node>)
    ensures |nodes| == |w|
    ensures forall k :: 0 <= k < |w| ==> nodes[k] == Once(w[k])
  {
    seq(|w|, k requires 0 <= k < |w| => Once(w[k]))
  }

  /** The fewest characters a node sequence can match. */
  function MinLen(nodes: seq<Node>): nat
    decreases |nodes|
  {
    if |nodes| == 0 then 0 else nodes[0].min + MinLen(nodes[1..])
  }

  /** The fewest characters any alternative of a pattern can match. */
  function ShortestMatch(p: Pattern): nat
    decreases |p|
  {
    if |p| == 0 then 0
    else if |p| == 1 then MinLen(p[0])
    else
      var rest := ShortestMatch(p[1..]);
      if MinLen(p[0]) <= rest then MinLen(p[0]) else rest
  }

  /** The length of the longest run of class members starting at `i`. */
  function Run(cls: seq<Atom>, s: string, i: nat): (n: nat)
    requires i <= |s|
    ensures i + n <= |s|
    ensures forall j :: i <= j < i + n ==> InClass(cls, s[j])
    ensures i + n == |s| || !InClass(cls, s[i + n])
    decreases |s| - i
  {
    if i < |s| && InClass(cls, s[i]) then 1 + Run(cls, s, i + 1) else 0
  }

  /** How many characters a node may take at `i`: the run, capped by its maximum. */
  function Avail(node: Node, s: string, i: nat): (n: nat)
    requires i <= |s|
    ensures n <= Run(node.cls, s, i)
    ensures node.max.AtMost? ==> n <= node.max.n
    ensures node.max.Unbounded? || Run(node.cls, s, i) <= node.max.n ==> n == Run(node.cls, s, i)
  {
    var run := Run(node.cls, s, i);
    match node.max
    case Unbounded => run
    case AtMost(m) => if run <= m then run else m
  }

  /** Where the first successful match of `nodes` starting at `i` ends, in the order
      the backtracking matcher tries the counts, or `None` if every combination fails. */
  function MatchNodes(nodes: seq<Node>, s: string, i: nat): (r: Option<nat>)
    requires i <= |s|
    ensures r.Some? ==> i + MinLen(nodes) <= r.value <= |s|
    decreases |nodes|, |s| - i + 1
  {
    if |nodes| == 0 then Some(i)
    else
      var k := Avail(nodes[0], s, i);
      if k < nodes[0].min then None
      else if nodes[0].greedy then GreedyFrom(nodes, s, i, k)
      else LazyFrom(nodes, s, i, nodes[0].min, k)
  }

  /** A greedy first node: try `c` characters, then `c - 1`, ..., down to its minimum. */
  function GreedyFrom(nodes: seq<Node>, s: string, i: nat, c: nat): (r: Option<nat>)
    requires |nodes| > 0 && nodes[0].min <= c && i + c <= |s|
    ensures r.Some? ==> i + MinLen(nodes) <= r.value <= |s|
    decreases |nodes|, c
  {
    var rest := MatchNodes(nodes[1..], s, i + c);
    if rest.Some? then rest
    else if c == nodes[0].min then None
    else GreedyFrom(nodes, s, i, c - 1)
  }

  /** A lazy first node: try `c` characters, then `c + 1`, ..., up to `k`. */
  function LazyFrom(nodes: seq<Node>, s: string, i: nat, c: nat, k: nat): (r: Option<nat>)
    requires |nodes| > 0 && nodes[0].min <= c <= k && i + k <= |s|
    ensures r.Some? ==> i + MinLen(nodes) <= r.value <= |s|
    decreases |nodes|, k - c
  {
    var rest := MatchNodes(nodes[1..], s, i + c);
    if rest.Some? then rest
    else if c == k then None
    else LazyFrom(nodes, s, i, c + 1, k)
  }

  /** The length of the match the pattern finds at the start of `s`: the first
      alternative that matches wins. */
  function MatchAt(p: Pattern, s: string): (r: Option<nat>)
    ensures r.Some? ==> ShortestMatch(p) <= r.value <= |s|
    decreases |p|
  {
    if |p| == 0 then None
    else
      var m := MatchNodes(p[0], s, 0);
      if m.Some? then m else MatchAt(p[1..], s)
  }

  /** The leftmost match starting at or after `i`: its start and end, or `None` when
      the pattern matches at none of those positions. */
  function SearchFrom(p: Pattern, s: string, i: nat): (r: Option<(nat, nat)>)
    requires i <= |s|
    ensures r.Some? ==> i <= r.value.0 && r.value.0 + ShortestMatch(p) <= r.value.1 <= |s|
    ensures r.Some? ==> MatchAt(p, s[r.value.0..]) == Some(r.value.1 - r.value.0)
    ensures r.Some? ==> forall j :: i <= j < r.value.0 ==> MatchAt(p, s[j..]).None?
    ensures r.None? ==> forall j :: i <= j <= |s| ==> MatchAt(p, s[j..]).None?
    decreases |s| - i
  {
    var here := MatchAt(p, s[i..]);
    if here.Some? then
      var e := i + here.value;
      assert MatchAt(p, s[i..]) == Some(e - i);
      Some((i, e))
    else if i == |s| then None
    else SearchFrom(p, s, i + 1)
  }

  /** `re.search`: the start and end of the leftmost match, or `None` when the
      pattern matches nowhere. */
  function Search(p: Pattern, s: string): (r: Option<(nat, nat)>)
    ensures r.Some? ==> r.value.0 + ShortestMatch(p) <= r.value.1 <= |s|
    ensures r.Some? ==> MatchAt(p, s[r.value.0..]) == Some(r.value.1 - r.value.0)
    ensures r.Some? ==> forall j :: 0 <= j < r.value.0 ==> MatchAt(p, s[j..]).None?
    ensures r.None? ==> forall j :: 0 <= j <= |s| ==> MatchAt(p, s[j..]).None?
  {
    SearchFrom(p, s, 0)
  }

  /** A match at `a` with none between `i` and `a` is the first one found from `i`. */
  lemma {:induction false} SearchFromLeftmost(p: Pattern, s: string, i: nat, a: nat, m: nat)
    requires i <= a <= |s| && MatchAt(p, s[a..]) == Some(m)
    requires forall j :: i <= j < a ==> MatchAt(p, s[j..]).None?
    ensures SearchFrom(p, s, i) == Some((a, a + m))
    decreases a - i
  {
    if i < a {
      assert MatchAt(p, s[i..]).None?;
      SearchFromLeftmost(p, s, i + 1, a, m);
    }
  }

  /** A match at `a` with none before it is the leftmost match. */
  lemma SearchLeftmost(p: Pattern, s: string, a: nat, m: nat)
    requires a <= |s| && MatchAt(p, s[a..]) == Some(m)
    requires forall j :: 0 <= j < a ==> MatchAt(p, s[j..]).None?
    ensures Search(p, s) == Some((a, a + m))
  {
    SearchFromLeftmost(p, s, 0, a, m);
  }

  /** A pattern that matches at no position is found nowhere. */
  lemma SearchMiss(p: Pattern, s: string)
    requires forall j :: 0 <= j <= |s| ==> MatchAt(p, s[j..]).None?
    ensures Search(p, s) == None
  {
  }

  /** `re.sub(p, repl, s)` for a pattern that cannot match the empty string: scan from
      the left, replace each leftmost match by `repl` and resume right after it. The
      result never gains characters other than those of `s` and `repl`, and it is no
      longer than `s` when `repl` is no longer than the shortest possible match. */
  function Sub(p: Pattern, repl: string, s: string): (r: string)
    requires ShortestMatch(p) >= 1
    ensures |repl| <= ShortestMatch(p) ==> |r| <= |s|
    ensures forall c :: c in r ==> c in s || c in repl
    decreases |s|
  {
    if |s| == 0 then ""
    else
      var m := MatchAt(p, s);
      if m.Some? then
        var rest := Sub(p, repl, s[m.value..]);
        assert forall c :: c in s[m.value..] ==> c in s;
        repl + rest
      else
        var rest := Sub(p, repl, s[1..]);
        assert forall c :: c in s[1..] ==> c in s;
        [s[0]] + rest
  }

  // ---------------------------------------------------------------------------
  // Facts about the matcher

  /** A pattern whose every alternative needs at least `m` characters can match no
      fewer than `m`. */
  lemma {:induction false} ShortestMatchAtLeast(p: Pattern, m: nat)
    requires |p| > 0
    requires forall k :: 0 <= k < |p| ==> MinLen(p[k]) >= m
    ensures ShortestMatch(p) >= m
    decreases |p|
  {
    if |p| > 1 {
      ShortestMatchAtLeast(p[1..], m);
    }
  }

  /** A sequence needs at least the minimum of each of two of its nodes. */
  lemma {:induction false} MinLenPair(nodes: seq<Node>, j: nat, k: nat)
    requires j < k < |nodes|
    ensures MinLen(nodes) >= nodes[j].min + nodes[k].min
    decreases |nodes|
  {
    if j > 0 {
      MinLenPair(nodes[1..], j - 1, k - 1);
    } else {
      MinLenOne(nodes[1..], k - 1);
    }
  }

  /** A sequence needs at least the minimum of any one of its nodes. */
  lemma {:induction false} MinLenOne(nodes: seq<Node>, k: nat)
    requires k < |nodes|
    ensures MinLen(nodes) >= nodes[k].min
    decreases |nodes|
  {
    if k > 0 {
      MinLenOne(nodes[1..], k - 1);
    }
  }

  lemma {:induction false} LiteralMinLen(w: string)
    ensures MinLen(Literal(w)) == |w|
    decreases |w|
  {
    if |w| > 0 {
      LiteralMinLen(w[1..]);
      assert Literal(w)[1..] == Literal(w[1..]);
    }
  }

  /** A literal matches exactly where the text continues with it, and then takes
      exactly its own length. */
  lemma {:induction false} LiteralMatch(w: string, s: string, i: nat)
    requires i <= |s|
    ensures MatchNodes(Literal(w), s, i) == if StartsWith(s[i..], w) then Some(i + |w|) else None
    decreases |w|
  {
    if |w| > 0 {
      var nodes := Literal(w);
      assert nodes[0] == Once(w[0]);
      assert nodes[1..] == Literal(w[1..]);
      assert forall c :: InClass([Ch(w[0])], c) <==> c == w[0] by {
        forall c ensures InClass([Ch(w[0])], c) <==> c == w[0] {
          assert [Ch(w[0])][1..] == [];
        }
      }
      if i < |s| && s[i] == w[0] {
        assert Avail(nodes[0], s, i) == 1;
        LiteralMatch(w[1..], s, i + 1);
        assert s[i..] == [s[i]] + s[i + 1..];
        assert w == [w[0]] + w[1..];
        assert StartsWith(s[i..], w) <==> StartsWith(s[i + 1..], w[1..]);
      } else {
        assert Avail(nodes[0], s, i) == 0;
      }
    }
  }

  /** A pattern made of a single greedy node takes the whole run it may take, if that
      is at least its minimum. */
  lemma GreedyAlone(n: Node, s: string, i: nat)
    requires n.greedy && i <= |s|
    ensures MatchNodes([n], s, i) == if Avail(n, s, i) >= n.min then Some(i + Avail(n, s, i)) else None
  {
    var k := Avail(n, s, i);
    if k >= n.min {
      assert [n][1..] == [];
      assert MatchNodes([n][1..], s, i + k) == Some(i + k);
    }
  }

  /** A greedy first node finds a match when one of the counts it tries lets the
      rest of the sequence match. */
  lemma {:induction false} GreedyReaches(nodes: seq<Node>, s: string, i: nat, c: nat, c0: nat)
    requires |nodes| > 0 && nodes[0].min <= c0 <= c && i + c <= |s|
    requires MatchNodes(nodes[1..], s, i + c0).Some?
    ensures GreedyFrom(nodes, s, i, c).Some?
    decreases c
  {
    if c > c0 && MatchNodes(nodes[1..], s, i + c).None? {
      GreedyReaches(nodes, s, i, c - 1, c0);
    }
  }

  /** Membership in a class is membership in one of its members. */
  lemma {:induction false} ClassMembers(cls: seq<Atom>, c: char)
    ensures InClass(cls, c) <==> exists k :: 0 <= k < |cls| && AtomHas(cls[k], c)
    decreases |cls|
  {
    if |cls| > 0 {
      ClassMembers(cls[1..], c);
      assert forall k :: 1 <= k < |cls| ==> cls[1..][k - 1] == cls[k];
    }
  }

  /** Where the pattern does not match, substitution keeps the first character. */
  lemma SubMissStep(p: Pattern, repl: string, s: string)
    requires ShortestMatch(p) >= 1 && |s| > 0 && MatchAt(p, s).None?
    ensures Sub(p, repl, s) == [s[0]] + Sub(p, repl, s[1..])
  {
  }

  /** Where the pattern matches, substitution replaces the match and goes on after it. */
  lemma SubHitStep(p: Pattern, repl: string, s: string, m: nat)
    requires ShortestMatch(p) >= 1 && |s| > 0 && MatchAt(p, s) == Some(m)
    ensures m <= |s|
    ensures Sub(p, repl, s) == repl + Sub(p, repl, s[m..])
  {
  }

  /** With no match anywhere, substitution leaves the text unchanged. */
  lemma {:induction false} SubNoMatch(p: Pattern, repl: string, s: string)
    requires ShortestMatch(p) >= 1
    requires forall j :: 0 <= j < |s| ==> MatchAt(p, s[j..]).None?
    ensures Sub(p, repl, s) == s
    decreases |s|
  {
    if |s| > 0 {
      assert s[0..] == s;
      assert forall j :: 0 <= j < |s| - 1 ==> s[1..][j..] == s[j + 1..];
      SubNoMatch(p, repl, s[1..]);
      assert s == [s[0]] + s[1..];
    }
  }

  /** `str.replace` agrees with `re.sub` on the escaped literal. */
  lemma {:induction false} ReplaceIsSub(s: string, target: string, repl: string)
    requires |target| > 0
    ensures ShortestMatch([Literal(target)]) == |target|
    ensures Replace(s, target, repl) == Sub([Literal(target)], repl, s)
    decreases |s|
  {
    LiteralMinLen(target);
    if |s| > 0 {
      LiteralMatch(target, s, 0);
      assert s[0..] == s;
      assert MatchAt([Literal(target)], s) == MatchNodes(Literal(target), s, 0) by {
        assert [Literal(target)][1..] == [];
      }
      if StartsWith(s, target) {
        ReplaceIsSub(s[|target|..], target, repl);
      } else {
        ReplaceIsSub(s[1..], target, repl);
      }
    }
  }
}
