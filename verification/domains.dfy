/** `extract_domain` (utils.py:11-20): for each row of an address column, the set of
    domains of its comma-separated addresses, where the domain of one address is what
    `@(.*)[.]` captures in it. A row with any address that yields no domain, or a
    cell that is not text, gets no domains at all. */
module Domains {
  import opened Results
  import opened Text
  import opened Regex

  /** `@(.*)[.]`: an `@`, a greedy run of anything but a newline, and a `.`. */
  const DomainPattern: Pattern := [[Once('@'), AtLeast([NotNewline], 0), Once('.')]]

  /** The pattern after its `@`: the captured run and the closing `.`. */
  const DomainTail: seq<Node> := [AtLeast([NotNewline], 0), Once('.')]

  lemma DomainNeedsTwo()
    ensures ShortestMatch(DomainPattern) == 2
  {
    var nodes := DomainPattern[0];
    assert nodes[1..] == DomainTail && DomainTail[1..] == [Once('.')] && [Once('.')][1..] == [];
    assert DomainPattern[1..] == [];
  }

  /** The text a match from `m.0` to `m.1` leaves once its first and last characters
      are dropped: the group of a pattern `x(...)y` whose ends are single characters. */
  function Group(frag: string, m: Option<(nat, nat)>): (r: Option<string>)
    requires m.Some? ==> m.value.0 + 2 <= m.value.1 <= |frag|
    ensures r.Some? <==> m.Some?
    ensures r.Some? ==> IsInfix(r.value, frag) && |r.value| == m.value.1 - m.value.0 - 2
  {
    match m
    case None => None
    case Some((a, e)) =>
      SliceIsInfix(frag, a + 1, e - 1);
      Some(frag[a + 1..e - 1])
  }

  /** The group of the leftmost match of `p`, for a `p` whose matches have at least
      the two characters that enclose the group. */
  function Inner(p: Pattern, frag: string): (r: Option<string>)
    requires ShortestMatch(p) >= 2
    ensures r.Some? <==> Search(p, frag).Some?
    ensures r.Some? ==> IsInfix(r.value, frag)
  {
    Group(frag, Search(p, frag))
  }

  /** `re.findall(r"@(.*)[.]", frag)[0]`: the group of the leftmost match, which runs
      from just after its `@` to just before its final `.`; `None` where `findall`
      finds nothing and indexing its empty result raises. */
  function Domain(frag: string): (r: Option<string>)
    ensures r.Some? ==> IsInfix(r.value, frag)
  {
    DomainNeedsTwo();
    Inner(DomainPattern, frag)
  }

  // ---------------------------------------------------------------------------
  // The capture described without the matcher

  /** `a` is where the first `c` of `s` stands, or `|s|` when there is none. */
  predicate FirstAt(s: string, c: char, a: nat) {
    a <= |s| && (a < |s| ==> s[a] == c) && forall j :: 0 <= j < a ==> s[j] != c
  }

  /** `d` is where the last `c` of `s` stands, or -1 when there is none. */
  predicate LastAt(s: string, c: char, d: int) {
    -1 <= d < |s| && (d >= 0 ==> s[d] == c) && forall j :: d < j < |s| ==> s[j] != c
  }

  /** `s.rfind(c, 0, hi)`: the position of the last `c` before `hi`, or -1. */
  function LastIndex(s: string, c: char, hi: nat): (i: int)
    requires hi <= |s|
    ensures -1 <= i < hi
    ensures i >= 0 ==> s[i] == c
    ensures forall j :: i < j < hi ==> s[j] != c
  {
    if hi == 0 then -1 else if s[hi - 1] == c then hi - 1 else LastIndex(s, c, hi - 1)
  }

  lemma NotNewlineClass(c: char)
    ensures InClass([NotNewline], c) <==> c != '\n'
  {
    assert [NotNewline][1..] == [];
  }

  /** Every character of a line belongs to `.`. */
  lemma LineInClass(t: string)
    requires '\n' !in t
    ensures forall j :: 0 <= j < |t| ==> InClass([NotNewline], t[j])
  {
    forall j | 0 <= j < |t| ensures InClass([NotNewline], t[j]) {
      NotNewlineClass(t[j]);
    }
  }

  lemma CharClass(x: char, c: char)
    ensures InClass([Ch(x)], c) <==> c == x
  {
    assert [Ch(x)][1..] == [];
  }

  /** One step of the greedy run's backtracking: the `.` either comes right after
      the `c` characters taken, or the run gives one back. */
  lemma TailStep(t: string, c: nat)
    requires |t| > 0 && 1 + c <= |t|
    ensures GreedyFrom(DomainTail, t, 1, c) ==
      if 1 + c < |t| && t[1 + c] == '.' then Some(c + 2)
      else if c == 0 then None
      else GreedyFrom(DomainTail, t, 1, c - 1)
  {
    var dot := [Once('.')];
    assert DomainTail[1..] == dot && dot[1..] == [];
    GreedyAlone(Once('.'), t, 1 + c);
    if 1 + c < |t| {
      CharClass('.', t[1 + c]);
    }
  }

  /** The greedy run, started with `c` characters after the `@`, settles on the last
      `.` among the first `c + 1` positions after it. */
  lemma {:induction false} GreedyTail(t: string, c: nat)
    requires |t| > 0 && t[0] == '@' && 1 + c <= |t|
    ensures var d := LastIndex(t, '.', if c + 2 <= |t| then c + 2 else |t|);
      GreedyFrom(DomainTail, t, 1, c) == if d >= 0 then Some(d + 1) else None
    decreases c
  {
    var hi := if c + 2 <= |t| then c + 2 else |t|;
    TailStep(t, c);
    if 1 + c < |t| && t[1 + c] == '.' {
      assert LastIndex(t, '.', hi) == 1 + c;
    } else {
      assert LastIndex(t, '.', hi) == LastIndex(t, '.', c + 1);
      if c > 0 {
        GreedyTail(t, c - 1);
      } else {
        assert LastIndex(t, '.', 1) == -1;
      }
    }
  }

  /** On a line, the pattern matches at the start exactly when the text starts with
      `@` and has a `.` after it, and then the match ends just after the last `.`. */
  lemma MatchDomain(t: string)
    requires '\n' !in t
    ensures var d := LastIndex(t, '.', |t|);
      MatchAt(DomainPattern, t) == if |t| > 0 && t[0] == '@' && d > 0 then Some(d + 1) else None
  {
    var nodes := DomainPattern[0];
    assert DomainPattern[1..] == [];
    assert nodes[1..] == DomainTail;
    if |t| > 0 {
      CharClass('@', t[0]);
    }
    if |t| > 0 && t[0] == '@' {
      assert Avail(nodes[0], t, 0) == 1;
      var n := Run([NotNewline], t, 1);
      LineInClass(t);
      assert n == |t| - 1;
      assert Avail(DomainTail[0], t, 1) == n;
      GreedyTail(t, n);
      assert MatchNodes(DomainTail, t, 1) == GreedyFrom(DomainTail, t, 1, n);
      assert MatchNodes(nodes, t, 0) == GreedyFrom(nodes, t, 0, 1);
    } else if |t| > 0 {
      assert Avail(nodes[0], t, 0) == 0;
    }
  }

  /** The last `.` of a suffix is the last `.` of the whole text, shifted. */
  lemma LastIndexSuffix(s: string, c: char, j: nat)
    requires j <= |s|
    ensures var d := LastIndex(s, c, |s|);
      LastIndex(s[j..], c, |s| - j) == if d >= j then d - j else -1
  {
    var d := LastIndex(s, c, |s|);
    var t := s[j..];
    var e := LastIndex(t, c, |s| - j);
    if d >= j {
      assert t[d - j] == c;
    }
    if e >= 0 {
      assert s[j + e] == c;
    }
  }

  /** A suffix of a text without `c` has no `c` either. */
  lemma SuffixAvoids(s: string, j: nat, c: char)
    requires c !in s && j <= |s|
    ensures c !in s[j..]
  {
    assert forall i :: 0 <= i < |s| - j ==> s[j..][i] == s[j + i];
  }

  /** `rfind` over the whole text finds the last occurrence. */
  lemma LastIndexIs(s: string, c: char, d: int)
    requires LastAt(s, c, d)
    ensures LastIndex(s, c, |s|) == d
  {
  }

  /** On a line whose last `.` stands at `d`, the pattern matches at position `j`
      exactly when an `@` stands there and `d` comes after it, and the match then
      ends just after `d`. */
  lemma MatchDomainAt(frag: string, d: int, j: nat)
    requires '\n' !in frag && LastAt(frag, '.', d) && j <= |frag|
    ensures MatchAt(DomainPattern, frag[j..]) ==
      if j < |frag| && frag[j] == '@' && d > j then Some(d - j + 1) else None
  {
    var t := frag[j..];
    SuffixAvoids(frag, j, '\n');
    MatchDomain(t);
    LastIndexIs(frag, '.', d);
    LastIndexSuffix(frag, '.', j);
    var e := LastIndex(t, '.', |t|);
    assert e == if d >= j then d - j else -1;
    assert |t| > 0 ==> t[0] == frag[j];
  }

  /** Where the pattern matches on a line, position by position. */
  lemma DomainMatches(frag: string, d: int)
    requires '\n' !in frag && LastAt(frag, '.', d)
    ensures forall j :: 0 <= j <= |frag| ==>
      MatchAt(DomainPattern, frag[j..]) ==
        (if j < |frag| && frag[j] == '@' && d > j then Some(d - j + 1) else None)
  {
    forall j | 0 <= j <= |frag| {
      MatchDomainAt(frag, d, j);
    }
  }

  /** Where a pattern matches exactly at the positions holding `c` before `d`, each
      match ending just after `d`, its first match is at the first `c`, and there is
      none when no `c` comes before `d`. */
  lemma MatchesFromFirst(p: Pattern, s: string, c: char, a: nat, d: int)
    requires FirstAt(s, c, a) && d < |s|
    requires forall j :: 0 <= j <= |s| ==>
      MatchAt(p, s[j..]) == (if j < |s| && s[j] == c && d > j then Some(d - j + 1) else None)
    ensures a < d ==> MatchAt(p, s[a..]) == Some(d - a + 1)
    ensures a < d ==> forall j :: 0 <= j < a ==> MatchAt(p, s[j..]).None?
    ensures d <= a ==> forall j :: 0 <= j <= |s| ==> MatchAt(p, s[j..]).None?
  {
    forall j | 0 <= j <= |s| && j < a ensures MatchAt(p, s[j..]).None? {
      assert s[j] != c;
    }
    if d <= a {
      forall j | 0 <= j <= |s| ensures MatchAt(p, s[j..]).None? {
        assert j < |s| && s[j] == c ==> a <= j;
      }
    }
  }

  /** On a line whose first `@` stands at `a` and last `.` at `d`, the pattern
      matches at `a` and nowhere before when `a` comes before `d`, and nowhere at all
      otherwise. */
  lemma DomainHits(frag: string, a: nat, d: int)
    requires '\n' !in frag && FirstAt(frag, '@', a) && LastAt(frag, '.', d)
    ensures a < d ==> MatchAt(DomainPattern, frag[a..]) == Some(d - a + 1)
    ensures a < d ==> forall j :: 0 <= j < a ==> MatchAt(DomainPattern, frag[j..]).None?
    ensures d <= a ==> forall j :: 0 <= j <= |frag| ==> MatchAt(DomainPattern, frag[j..]).None?
  {
    DomainMatches(frag, d);
    MatchesFromFirst(DomainPattern, frag, '@', a, d);
  }

  /** On a line whose first `@` stands at `a` and last `.` at `d`, the leftmost match
      runs from `a` to just after `d` when `d` comes after `a`; otherwise there is
      none. */
  lemma SearchDomain(frag: string, a: nat, d: int)
    requires '\n' !in frag && FirstAt(frag, '@', a) && LastAt(frag, '.', d)
    ensures Search(DomainPattern, frag) == if a < d then Some((a, d + 1)) else None
  {
    DomainHits(frag, a, d);
    if a < d {
      SearchLeftmost(DomainPattern, frag, a, d - a + 1);
    } else {
      SearchMiss(DomainPattern, frag);
    }
  }

  /** The inner text of a match from `a` to just after `d` lies strictly between them. */
  lemma InnerOf(p: Pattern, frag: string, a: nat, d: int)
    requires ShortestMatch(p) >= 2
    requires Search(p, frag) == if a < d then Some((a, d + 1)) else None
    ensures Inner(p, frag) == if a < d then Some(frag[a + 1..d]) else None
  {
    if a < d {
      assert Group(frag, Some((a, d + 1))) == Some(frag[a + 1..d]);
    }
  }

  /** On a line, the domain is the text strictly between the first `@` (at `a`) and
      the last `.` (at `d`), provided that `.` comes after that `@`; otherwise there
      is none. */
  lemma DomainBetween(frag: string, a: nat, d: int)
    requires '\n' !in frag && FirstAt(frag, '@', a) && LastAt(frag, '.', d)
    ensures Domain(frag) == if a < d then Some(frag[a + 1..d]) else None
  {
    SearchDomain(frag, a, d);
    DomainNeedsTwo();
    InnerOf(DomainPattern, frag, a, d);
  }

  /** An address `user@host.tld` with no `@` in `user` and no `.` in `tld` has the
      domain `host`, dots included: the greedy group runs to the last `.`, so
      `billw@calpine.no.com` gives `calpine.no`. */
  lemma DomainOfAddress(user: string, host: string, tld: string)
    requires '@' !in user && '.' !in tld
    requires '\n' !in user && '\n' !in host && '\n' !in tld
    ensures Domain(user + "@" + host + "." + tld) == Some(host)
  {
    var frag := user + "@" + host + "." + tld;
    var a := |user|;
    var d := |user| + 1 + |host|;
    assert forall j :: 0 <= j < a ==> frag[j] == user[j];
    assert forall j :: a < j < d ==> frag[j] == host[j - a - 1];
    assert forall j :: d < j < |frag| ==> frag[j] == tld[j - d - 1];
    assert frag[a] == '@' && frag[d] == '.';
    assert FirstAt(frag, '@', a) && LastAt(frag, '.', d);
    assert frag[a + 1..d] == host;
    DomainBetween(frag, a, d);
  }

  // ---------------------------------------------------------------------------
  // Rows and columns

  /** A cell of the address column: text, or anything else (pandas' `NaN` for a
      missing value), on which `.split` raises. */
  datatype Cell = Text(value: string) | NotText

  /** The set of all the per-fragment results, or `None` as soon as one of them is
      `None`: the list comprehension inside `try` either completes or raises. */
  function Gather(ds: seq<Option<string>>): (r: Option<set<string>>)
    ensures r.Some? <==> forall k :: 0 <= k < |ds| ==> ds[k].Some?
    ensures r.Some? ==> |r.value| <= |ds|
    ensures r.Some? ==> forall k :: 0 <= k < |ds| ==> ds[k].value in r.value
    ensures r.Some? ==> forall d :: d in r.value ==> exists k :: 0 <= k < |ds| && ds[k] == Some(d)
    decreases |ds|
  {
    if |ds| == 0 then Some({})
    else
      var tail := ds[1..];
      var rest := Gather(tail);
      assert forall k :: 1 <= k < |ds| ==> ds[k] == tail[k - 1];
      match ds[0]
      case None => None
      case Some(d) =>
        if rest.None? then
          var k :| 0 <= k < |tail| && tail[k].None?;
          assert ds[k + 1].None?;
          None
        else
          var r := {d} + rest.value;
          assert |r| <= 1 + |rest.value|;
          assert forall x :: x in r ==> exists k :: 0 <= k < |ds| && ds[k] == Some(x) by {
            forall x | x in r ensures exists k :: 0 <= k < |ds| && ds[k] == Some(x) {
              if x != d {
                var k :| 0 <= k < |tail| && tail[k] == Some(x);
                assert ds[k + 1] == Some(x);
              }
            }
          }
          Some(r)
  }

  /** The domain of each fragment, in order. */
  function FragmentDomains(frags: seq<string>): (ds: seq<Option<string>>)
    ensures |ds| == |frags|
    ensures forall k :: 0 <= k < |frags| ==> ds[k] == Domain(frags[k])
  {
    seq(|frags|, k requires 0 <= k < |frags| => Domain(frags[k]))
  }

  /** What `r` must be for a text cell `v` cut into `frags`: no more domains than
      fragments, each one the domain of a fragment and a piece of `v`; every
      fragment's domain when all fragments have one; and none at all when some
      fragment has none. */
  ghost predicate FragsSpec(frags: seq<string>, v: string, r: set<string>) {
    && |r| <= |frags|
    && (forall d :: d in r ==> IsInfix(d, v))
    && (forall d :: d in r ==> exists k :: 0 <= k < |frags| && Domain(frags[k]) == Some(d))
    && ((exists k :: 0 <= k < |frags| && Domain(frags[k]).None?) ==> r == {})
    && ((forall k :: 0 <= k < |frags| ==> Domain(frags[k]).Some?) ==>
          forall k, d :: 0 <= k < |frags| && Domain(frags[k]) == Some(d) ==> d in r)
  }

  /** The same for the fragments `v.split(",")` gives. */
  ghost predicate RowSpec(v: string, r: set<string>) {
    FragsSpec(Split(v, ','), v, r)
  }

  /** One row of `extract_domain`: the set of domains of the comma-separated
      fragments; empty when the cell is not text or any fragment has no domain. */
  function RowDomains(cell: Cell): (r: set<string>)
    ensures cell.NotText? ==> r == {}
    ensures cell.Text? ==> RowSpec(cell.value, r)
  {
    match cell
    case NotText => {}
    case Text(v) =>
      match Gather(FragmentDomains(Split(v, ',')))
      case None =>
        MissingRow(v);
        {}
      case Some(ds) =>
        GatheredRow(v, ds);
        ds
  }

  /** When some fragment has no domain, the empty set meets the row's description. */
  lemma MissingRow(v: string)
    requires Gather(FragmentDomains(Split(v, ','))).None?
    ensures RowSpec(v, {})
  {
    MissingFrags(Split(v, ','), v);
  }

  lemma MissingFrags(frags: seq<string>, v: string)
    requires Gather(FragmentDomains(frags)).None?
    ensures FragsSpec(frags, v, {})
  {
    var each := FragmentDomains(frags);
    var k :| 0 <= k < |each| && each[k].None?;
    assert Domain(frags[k]).None?;
  }

  /** The gathered domains meet the row's description. */
  lemma GatheredRow(v: string, ds: set<string>)
    requires Gather(FragmentDomains(Split(v, ','))) == Some(ds)
    ensures RowSpec(v, ds)
  {
    SplitPartsAreInfixes(v, ',');
    GatheredFrags(Split(v, ','), v, ds);
  }

  lemma GatheredFrags(frags: seq<string>, v: string, ds: set<string>)
    requires forall k :: 0 <= k < |frags| ==> IsInfix(frags[k], v)
    requires Gather(FragmentDomains(frags)) == Some(ds)
    ensures FragsSpec(frags, v, ds)
  {
    var each := FragmentDomains(frags);
    GatheredInfixes(frags, v, ds);
    forall d | d in ds ensures exists k :: 0 <= k < |frags| && Domain(frags[k]) == Some(d) {
      var k :| 0 <= k < |each| && each[k] == Some(d);
    }
  }

  /** Every domain gathered from fragments of `v` occurs in `v`. */
  lemma GatheredInfixes(frags: seq<string>, v: string, ds: set<string>)
    requires forall k :: 0 <= k < |frags| ==> IsInfix(frags[k], v)
    requires Gather(FragmentDomains(frags)) == Some(ds)
    ensures forall d :: d in ds ==> IsInfix(d, v)
  {
    var each := FragmentDomains(frags);
    forall d | d in ds ensures IsInfix(d, v) {
      var k :| 0 <= k < |each| && each[k] == Some(d);
      InfixTransitive(d, frags[k], v);
    }
  }

  /** An empty cell has no domains: its one fragment is empty. */
  lemma EmptyCell()
    ensures RowDomains(Text("")) == {}
  {
    assert Split("", ',') == [""];
    DomainNeedsTwo();
    assert Domain("").None?;
  }

  /** `extract_domain(df, col)`: one set of domains per row, in row order; none for
      a row that is not text, and for a text row the set `RowSpec` describes. */
  function ExtractDomain(column: seq<Cell>): (r: seq<set<string>>)
    ensures |r| == |column|
    ensures forall i :: 0 <= i < |column| && column[i].NotText? ==> r[i] == {}
    ensures forall i :: 0 <= i < |column| && column[i].Text? ==> RowSpec(column[i].value, r[i])
  {
    seq(|column|, i requires 0 <= i < |column| => RowDomains(column[i]))
  }
}
