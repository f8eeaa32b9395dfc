/** The body normaliser (main.py:125-141, 162-187): the body lines are joined with
    spaces and stripped, then an ordered cascade of regular-expression substitutions
    removes header tokens, markup, addresses, banners, dates, links, phone numbers,
    address codes and encoding debris, and collapses symbol and whitespace runs. */
module Cleaning {
  import opened Results
  import opened Text
  import opened Regex
  import opened Schema

  // ---------------------------------------------------------------------------
  // The compiled patterns, main.py:126-141, in the notation of module Regex

  /** `[>,(\"\'\\!.\[\]-]`: in the non-raw source string `\\!` becomes the regex
      escape `\!`, so backslash is not a member. */
  const Symbols: seq<Atom> :=
    [Ch('>'), Ch(','), Ch('('), Ch('"'), Ch('\''), Ch('!'), Ch('.'), Ch('['), Ch(']'), Ch('-')]

  /** `clean_html_tags`: `<[/]*.*?>|&nbsp;` */
  const HtmlTags: Pattern :=
    [[Once('<'), AtLeast([Ch('/')], 0), LazyStar([NotNewline]), Once('>')], Literal("&nbsp;")]

  /** `clean_multi_space`: `[\s]{2,}` */
  const MultiSpace: Pattern := [[AtLeast([Space], 2)]]

  /** `clean_field_headers`: `name:` for every name of `fields_list_plus`, in order. */
  function FieldHeaders(): (p: Pattern)
    ensures |p| == |FieldsPlus()|
    ensures forall k :: 0 <= k < |p| ==> p[k] == Literal(FieldsPlus()[k] + ":")
  {
    seq(|FieldsPlus()|, k requires 0 <= k < |FieldsPlus()| => Literal(FieldsPlus()[k] + ":"))
  }

  /** `clean_emails`: `[\w._]+@[\w.]+` */
  const Emails: Pattern :=
    [[AtLeast([Word, Ch('.'), Ch('_')], 1), Once('@'), AtLeast([Word, Ch('.')], 1)]]

  /** `clean_fwds`: `[-_]{2,}.*?[-_]{2,}|FW:|Fwd:|RE:` */
  const Fwds: Pattern :=
    [[AtLeast([Ch('-'), Ch('_')], 2), LazyStar([NotNewline]), AtLeast([Ch('-'), Ch('_')], 2)],
     Literal("FW:"), Literal("Fwd:"), Literal("RE:")]

  /** `clean_unintended_sends`: `[-_*]{2,}.*?[-_*]{2,}` */
  const UnintendedSends: Pattern :=
    [[AtLeast([Ch('-'), Ch('_'), Ch('*')], 2), LazyStar([NotNewline]),
      AtLeast([Ch('-'), Ch('_'), Ch('*')], 2)]]

  /** `clean_dashes`: `[-]{2,}` */
  const Dashes: Pattern := [[AtLeast([Ch('-')], 2)]]

  /** `clean_transmission_warn`: `The information.*?any computer.` */
  const TransmissionWarn: Pattern :=
    [Literal("The information") + WarnTail]

  const WarnTail: seq<Node> := [LazyStar([NotNewline])] + Literal("any computer") + [Times([NotNewline], 1)]

  /** `clean_datetime`: `[\d]{1,2}/[\d]{1,2}/[\d]{4}\s+[\d]{1,2}:[\d]{1,2}[:\d]*\s+[AMPM]+` */
  const DateTime: Pattern :=
    [[Between([Digit], 1, 2), Once('/'), Between([Digit], 1, 2), Once('/'), Times([Digit], 4),
      AtLeast([Space], 1), Between([Digit], 1, 2), Once(':'), Between([Digit], 1, 2),
      AtLeast([Ch(':'), Digit], 0), AtLeast([Space], 1), AtLeast([Ch('A'), Ch('M'), Ch('P')], 1)]]

  /** `clean_multi_symbols`: `[S]+\s?[S]+` for the class `Symbols` */
  const MultiSymbols: Pattern := [[AtLeast(Symbols, 1), Optional([Space]), AtLeast(Symbols, 1)]]

  /** `clean_addr_code`: `[, ]*[A-Z]{2}\s+[\d]{5}` */
  const AddrCode: Pattern :=
    [[AtLeast([Ch(','), Ch(' ')], 0), Times([Range('A', 'Z')], 2), AtLeast([Space], 1),
      Times([Digit], 5)]]

  /** `clean_phone_fax`: `[\d]*[-]*[\d]{3}-[\d]{3}-[\d]{4}[\s]*[(]*\w*[)]*` */
  const PhoneFax: Pattern :=
    [[AtLeast([Digit], 0), AtLeast([Ch('-')], 0), Times([Digit], 3), Once('-'), Times([Digit], 3),
      Once('-'), Times([Digit], 4), AtLeast([Space], 0), AtLeast([Ch('(')], 0), AtLeast([Word], 0),
      AtLeast([Ch(')')], 0)]]

  /** `clean_phone_ctrycode`: `\([\d]{3}\)[\s]*[\d]{3}-[\d]{4}` */
  const PhoneCountryCode: Pattern :=
    [[Once('('), Times([Digit], 3), Once(')'), AtLeast([Space], 0), Times([Digit], 3), Once('-'),
      Times([Digit], 4)]]

  // `clean_link`: `[http]*[https]*[:/]*/?[\w]+[.][\w]+.*[.][\w]+`
  const Link: Pattern :=
    [[AtLeast([Ch('h'), Ch('t'), Ch('p')], 0), AtLeast([Ch('h'), Ch('t'), Ch('p'), Ch('s')], 0),
      AtLeast([Ch(':'), Ch('/')], 0), Optional([Ch('/')]), AtLeast([Word], 1), Once('.'),
      AtLeast([Word], 1), AtLeast([NotNewline], 0), Once('.'), AtLeast([Word], 1)]]

  /** `clean_email_codes`: `[=][\d]+` */
  const EmailCodes: Pattern := [[Once('='), AtLeast([Digit], 1)]]

  /** `clean_very_long_text`: `[\w+]{20,}` */
  const VeryLongText: Pattern := [[AtLeast([Word, Ch('+')], 20)]]

  // ---------------------------------------------------------------------------
  // Every pattern needs at least two characters, so no substitution lengthens text

  lemma FieldHeadersNeedThree()
    ensures ShortestMatch(FieldHeaders()) >= 3
  {
    var p := FieldHeaders();
    var names := FieldsPlus();
    NamesFacts();
    forall k | 0 <= k < |p| ensures MinLen(p[k]) >= 3 {
      LiteralMinLen(names[k] + ":");
      var f := if k < |Fields| then k else if k < 2 * |Fields| then k - |Fields| else k - 2 * |Fields|;
      assert |names[k]| == |Fields[f]|;
    }
    ShortestMatchAtLeast(p, 3);
  }

  lemma SingleNeedsTwo(nodes: seq<Node>, j: nat, k: nat)
    requires j < k < |nodes| && nodes[j].min + nodes[k].min >= 2
    ensures ShortestMatch([nodes]) >= 2
  {
    MinLenPair(nodes, j, k);
  }

  lemma LiteralHeadNeedsTwo(w: string, rest: seq<Node>)
    requires |w| >= 2
    ensures ShortestMatch([Literal(w) + rest]) >= 2
  {
    SingleNeedsTwo(Literal(w) + rest, 0, 1);
  }

  lemma HtmlTagsNeedTwo() ensures ShortestMatch(HtmlTags) >= 2 {
    LiteralMinLen("&nbsp;");
    MinLenPair(HtmlTags[0], 0, 3);
    ShortestMatchAtLeast(HtmlTags, 2);
  }
  lemma EmailsNeedTwo() ensures ShortestMatch(Emails) >= 2 {
    SingleNeedsTwo(Emails[0], 0, 1);
  }
  lemma FwdsNeedTwo() ensures ShortestMatch(Fwds) >= 2 {
    LiteralMinLen("FW:");
    LiteralMinLen("Fwd:");
    LiteralMinLen("RE:");
    MinLenOne(Fwds[0], 0);
    ShortestMatchAtLeast(Fwds, 2);
  }
  lemma UnintendedNeedTwo() ensures ShortestMatch(UnintendedSends) >= 2 {
    SingleNeedsTwo(UnintendedSends[0], 0, 2);
  }
  lemma DashesNeedTwo() ensures ShortestMatch(Dashes) >= 2 {
    MinLenOne(Dashes[0], 0);
  }
  lemma WarnNeedTwo() ensures ShortestMatch(TransmissionWarn) >= 2 {
    LiteralHeadNeedsTwo("The information", WarnTail);
  }
  lemma DateTimeNeedTwo() ensures ShortestMatch(DateTime) >= 2 {
    SingleNeedsTwo(DateTime[0], 0, 1);
  }
  lemma LinkNeedTwo() ensures ShortestMatch(Link) >= 2 {
    SingleNeedsTwo(Link[0], 4, 5);
  }
  lemma PhoneFaxNeedTwo() ensures ShortestMatch(PhoneFax) >= 2 {
    SingleNeedsTwo(PhoneFax[0], 2, 3);
  }
  lemma CountryNeedTwo() ensures ShortestMatch(PhoneCountryCode) >= 2 {
    SingleNeedsTwo(PhoneCountryCode[0], 0, 1);
  }
  lemma AddrNeedTwo() ensures ShortestMatch(AddrCode) >= 2 {
    MinLenOne(AddrCode[0], 1);
  }
  lemma CodesNeedTwo() ensures ShortestMatch(EmailCodes) >= 2 {
    SingleNeedsTwo(EmailCodes[0], 0, 1);
  }
  lemma LongNeedTwo() ensures ShortestMatch(VeryLongText) >= 2 {
    MinLenOne(VeryLongText[0], 0);
  }
  lemma SymbolsNeedTwo() ensures ShortestMatch(MultiSymbols) >= 2 {
    SingleNeedsTwo(MultiSymbols[0], 0, 2);
  }
  lemma SpaceNeedTwo() ensures ShortestMatch(MultiSpace) >= 2 {
    MinLenOne(MultiSpace[0], 0);
  }

  // ---------------------------------------------------------------------------
  // Run collapsing: `[cls]{2,}` replaced by one character

  /** No two neighbouring characters both belong to the class. */
  predicate NoAdjacent(cls: seq<Atom>, s: string) {
    forall i :: 0 <= i < |s| - 1 ==> !(InClass(cls, s[i]) && InClass(cls, s[i + 1]))
  }

  /** `[cls]{m,}` matches at the start exactly when the run there is at least `m`
      long, and then takes the whole run. */
  lemma RunMatch(cls: seq<Atom>, m: nat, t: string)
    ensures ShortestMatch([[AtLeast(cls, m)]]) == m
    ensures MatchAt([[AtLeast(cls, m)]], t) ==
      if Run(cls, t, 0) >= m then Some(Run(cls, t, 0)) else None
  {
    var p := [[AtLeast(cls, m)]];
    assert p[1..] == [] && p[0][1..] == [];
    assert MinLen(p[0]) == m + MinLen(p[0][1..]);
    GreedyAlone(AtLeast(cls, m), t, 0);
  }

  /** A text that starts outside the class starts with no match. */
  lemma OutsideNoMatch(cls: seq<Atom>, m: nat, t: string)
    requires m >= 1 && |t| > 0 && !InClass(cls, t[0])
    ensures MatchAt([[AtLeast(cls, m)]], t).None?
  {
    RunMatch(cls, m, t);
  }

  /** Replacing every run of two or more class members by a single character leaves
      no two class members side by side, whether or not that character is itself a
      member. */
  lemma {:induction false} CollapseRuns(cls: seq<Atom>, x: char, s: string)
    ensures ShortestMatch([[AtLeast(cls, 2)]]) == 2
    ensures NoAdjacent(cls, Sub([[AtLeast(cls, 2)]], [x], s))
    decreases |s|
  {
    var p := [[AtLeast(cls, 2)]];
    RunMatch(cls, 2, s);
    if |s| > 0 {
      var k := Run(cls, s, 0);
      if k >= 2 {
        CollapseRuns(cls, x, s[k..]);
        var rest := Sub(p, [x], s[k..]);
        assert Sub(p, [x], s) == [x] + rest;
        if k < |s| {
          OutsideNoMatch(cls, 2, s[k..]);
          assert rest[0] == s[k];
        }
      } else {
        CollapseRuns(cls, x, s[1..]);
        var rest := Sub(p, [x], s[1..]);
        assert Sub(p, [x], s) == [s[0]] + rest;
        if InClass(cls, s[0]) && |s| > 1 {
          assert !InClass(cls, s[1]);
          OutsideNoMatch(cls, 2, s[1..]);
          assert rest[0] == s[1];
        }
      }
    }
  }

  /** With no two class members side by side, `[cls]{2,}` matches nowhere, so
      collapsing again changes nothing. */
  lemma CollapseStable(cls: seq<Atom>, x: char, s: string)
    requires NoAdjacent(cls, s)
    ensures ShortestMatch([[AtLeast(cls, 2)]]) == 2
    ensures Sub([[AtLeast(cls, 2)]], [x], s) == s
  {
    var p := [[AtLeast(cls, 2)]];
    RunMatch(cls, 2, s);
    forall j | 0 <= j < |s| ensures MatchAt(p, s[j..]).None? {
      RunMatch(cls, 2, s[j..]);
      if j + 1 < |s| {
        assert !(InClass(cls, s[j..][0]) && InClass(cls, s[j..][1]));
      }
    }
    SubNoMatch(p, [x], s);
  }

  lemma DashClass(c: char)
    ensures InClass([Ch('-')], c) <==> c == '-'
  {
    assert [Ch('-')][1..] == [];
  }

  lemma SpaceClass(c: char)
    ensures InClass([Space], c) <==> IsSpace(c)
  {
    assert [Space][1..] == [];
  }

  /** `re.sub(clean_dashes, " ", s)`: no two dashes remain side by side. */
  function DashPass(s: string): (r: string)
    ensures |r| <= |s|
    ensures forall c :: c in r ==> c in s || c == ' '
    ensures forall i :: 0 <= i < |r| - 1 ==> !(r[i] == '-' && r[i + 1] == '-')
  {
    CollapseRuns([Ch('-')], ' ', s);
    var r := Sub(Dashes, " ", s);
    forall i | 0 <= i < |r| - 1 ensures !(r[i] == '-' && r[i + 1] == '-') {
      DashClass(r[i]);
      DashClass(r[i + 1]);
    }
    r
  }

  /** No two whitespace characters side by side. */
  predicate NoAdjacentSpace(s: string) {
    forall i :: 0 <= i < |s| - 1 ==> !(IsSpace(s[i]) && IsSpace(s[i + 1]))
  }

  lemma AdjacentSpaceClass(s: string)
    ensures NoAdjacent([Space], s) <==> NoAdjacentSpace(s)
  {
    forall c { SpaceClass(c); }
  }

  /** `re.sub(clean_multi_space, " ", s)`: every run of two or more whitespace
      characters becomes one space, so no two whitespace characters remain side by
      side. */
  function SpacePass(s: string): (r: string)
    ensures |r| <= |s|
    ensures forall c :: c in r ==> c in s || c == ' '
    ensures NoAdjacentSpace(r)
  {
    CollapseRuns([Space], ' ', s);
    var r := Sub(MultiSpace, " ", s);
    AdjacentSpaceClass(r);
    r
  }

  /** Collapsing whitespace a second time changes nothing. */
  lemma SpacePassIdempotent(s: string)
    ensures SpacePass(SpacePass(s)) == SpacePass(s)
  {
    var r := SpacePass(s);
    AdjacentSpaceClass(r);
    CollapseStable([Space], ' ', r);
  }

  /** Text without adjacent whitespace is left alone by the whitespace pass. */
  lemma SpacePassKeeps(s: string)
    requires NoAdjacentSpace(s)
    ensures SpacePass(s) == s
  {
    AdjacentSpaceClass(s);
    CollapseStable([Space], ' ', s);
  }

  // ---------------------------------------------------------------------------
  // Escape codes: `[=][\d]+` replaced by nothing

  lemma EqualsClass(c: char)
    ensures InClass([Ch('=')], c) <==> c == '='
  {
    assert [Ch('=')][1..] == [];
  }

  lemma DigitClass(c: char)
    ensures InClass([Digit], c) <==> IsDigit(c)
  {
    assert [Digit][1..] == [];
  }

  /** `[=][\d]+` matches at the start exactly when an `=` is followed by a digit, and
      then takes the `=` and the whole digit run. */
  lemma CodeMatch(t: string)
    ensures ShortestMatch(EmailCodes) == 2
    ensures MatchAt(EmailCodes, t) ==
      if |t| > 0 && t[0] == '=' && Run([Digit], t, 1) >= 1 then Some(1 + Run([Digit], t, 1))
      else None
  {
    var nodes := EmailCodes[0];
    assert EmailCodes[1..] == [];
    assert nodes[1..] == [AtLeast([Digit], 1)] && nodes[1..][1..] == [];
    if |t| > 0 {
      EqualsClass(t[0]);
    }
    if |t| > 0 && t[0] == '=' {
      assert Avail(nodes[0], t, 0) == 1;
      GreedyAlone(AtLeast([Digit], 1), t, 1);
      assert MatchNodes(nodes, t, 0) == GreedyFrom(nodes, t, 0, 1);
      assert MatchAt(EmailCodes, t) == MatchNodes(nodes, t, 0);
    } else {
      assert Run([Ch('=')], t, 0) == 0;
    }
  }

  /** No `=` directly followed by a digit. */
  predicate NoEscapeCode(s: string) {
    forall i :: 0 <= i < |s| - 1 ==> !(s[i] == '=' && IsDigit(s[i + 1]))
  }

  /** Removing codes from a text that does not start with a digit yields a text that
      does not start with a digit. */
  lemma {:induction false} CodeFreeHead(t: string)
    requires |t| > 0 && !IsDigit(t[0])
    ensures var r := Sub(EmailCodes, "", t); |r| == 0 || !IsDigit(r[0])
    decreases |t|
  {
    CodeMatch(t);
    if t[0] == '=' && Run([Digit], t, 1) >= 1 {
      var k := 1 + Run([Digit], t, 1);
      if k < |t| {
        DigitClass(t[k]);
        CodeFreeHead(t[k..]);
      }
    }
  }

  /** `re.sub(clean_email_codes, "", s)` leaves no `=` directly followed by a digit:
      a code's digit run is removed whole, so what follows it is not a digit. */
  lemma {:induction false} CodesRemoved(s: string)
    ensures ShortestMatch(EmailCodes) == 2
    ensures NoEscapeCode(Sub(EmailCodes, "", s))
    decreases |s|
  {
    CodeMatch(s);
    if |s| > 0 {
      if s[0] == '=' && Run([Digit], s, 1) >= 1 {
        var k := 1 + Run([Digit], s, 1);
        CodesRemoved(s[k..]);
      } else {
        CodesRemoved(s[1..]);
        var rest := Sub(EmailCodes, "", s[1..]);
        assert Sub(EmailCodes, "", s) == [s[0]] + rest;
        if s[0] == '=' && |s| > 1 {
          DigitClass(s[1]);
          assert !IsDigit(s[1]);
          CodeFreeHead(s[1..]);
        }
      }
    }
  }

  /** `re.sub(clean_email_codes, "", s)`. */
  function CodePass(s: string): (r: string)
    ensures |r| <= |s|
    ensures forall c :: c in r ==> c in s
    ensures NoEscapeCode(r)
  {
    CodesRemoved(s);
    Sub(EmailCodes, "", s)
  }

  // ---------------------------------------------------------------------------
  // The cascade, main.py:167-184

  /** Step `k` of the cascade as its pattern and replacement, one per source line.
      Every step replaces a match of at least two characters by a space or by
      nothing, so no step can lengthen the text. */
  function Stage(k: nat): (r: (Pattern, string))
    requires k < 18
    ensures ShortestMatch(r.0) >= 2
    ensures r.1 == "" || r.1 == " "
  {
    if k == 0 then FieldHeadersNeedThree(); (FieldHeaders(), "")
    else if k == 1 then HtmlTagsNeedTwo(); (HtmlTags, "")
    else if k == 2 then EmailsNeedTwo(); (Emails, "")
    else if k == 3 then FwdsNeedTwo(); (Fwds, " ")
    else if k == 4 then UnintendedNeedTwo(); (UnintendedSends, " ")
    else if k == 5 then DashesNeedTwo(); (Dashes, " ")
    else if k == 6 then WarnNeedTwo(); (TransmissionWarn, " ")
    else if k == 7 then DateTimeNeedTwo(); (DateTime, " ")
    else if k == 8 then LinkNeedTwo(); (Link, " ")
    else if k == 9 then PhoneFaxNeedTwo(); (PhoneFax, " ")
    else if k == 10 then CountryNeedTwo(); (PhoneCountryCode, " ")
    else if k == 11 then AddrNeedTwo(); (AddrCode, " ")
    else if k == 12 then CodesNeedTwo(); (EmailCodes, "")
    else if k == 13 then LongNeedTwo(); (VeryLongText, "")
    else if k == 14 || k == 16 then SymbolsNeedTwo(); (MultiSymbols, " ")
    else SpaceNeedTwo(); (MultiSpace, " ")
  }

  /** Step `k` applied to `text`. */
  function ApplyStage(k: nat, text: string): (r: string)
    requires k < 18
    ensures |r| <= |text|
    ensures forall c :: c in r ==> c in text || c == ' '
  {
    Sub(Stage(k).0, Stage(k).1, text)
  }

  /** What the dash, code and whitespace steps guarantee right after they run. */
  lemma StageEffects(k: nat, text: string)
    requires k < 18
    ensures var r := ApplyStage(k, text);
      && (k == 5 ==> forall i :: 0 <= i < |r| - 1 ==> !(r[i] == '-' && r[i + 1] == '-'))
      && (k == 12 ==> NoEscapeCode(r))
      && (k == 15 || k == 17 ==> NoAdjacentSpace(r))
  {
    if k == 5 {
      DashStage(text);
    } else if k == 12 {
      CodeStage(text);
    } else if k == 15 || k == 17 {
      SpaceStage(k, text);
    }
  }

  /** Step 5 is the dash pass. */
  lemma DashStage(text: string)
    ensures ApplyStage(5, text) == DashPass(text)
  {
    assert Stage(5) == (Dashes, " ");
  }

  /** Step 12 is the code pass. */
  lemma CodeStage(text: string)
    ensures ApplyStage(12, text) == CodePass(text)
  {
    assert Stage(12) == (EmailCodes, "");
  }

  /** Steps 15 and 17 are the whitespace pass. */
  lemma SpaceStage(k: nat, text: string)
    requires k == 15 || k == 17
    ensures ApplyStage(k, text) == SpacePass(text)
  {
    assert Stage(k) == (MultiSpace, " ");
  }

  /** Steps `k`, `k + 1`, ..., 17 applied in order. */
  function CascadeFrom(k: nat, text: string): (r: string)
    requires k <= 18
    ensures |r| <= |text|
    ensures forall c :: c in r ==> c in text || c == ' '
    ensures k <= 17 ==> NoAdjacentSpace(r)
    decreases 18 - k
  {
    if k == 18 then text
    else if k == 17 then
      SpaceStage(k, text);
      ApplyStage(k, text)
    else
      CascadeFrom(k + 1, ApplyStage(k, text))
  }

  /** The eighteen substitutions of main.py:167-184 in source order. The result is no
      longer than the input, holds only its characters and spaces, and has no two
      whitespace characters side by side. */
  function Cascade(text: string): (r: string)
    ensures |r| <= |text|
    ensures forall c :: c in r ==> c in text || c == ' '
    ensures NoAdjacentSpace(r)
  {
    CascadeFrom(0, text)
  }

  // ---------------------------------------------------------------------------
  // The last two steps repeat steps 14-15. On text with no two whitespace characters
  // side by side, which is all that step 15 passes on, a second round of them
  // changes nothing; only text with adjacent whitespace can be changed again

  /** The symbol-collapse step followed by the whitespace-collapse step, i.e. steps
      16 and 17 (main.py:183-184), which repeat steps 14 and 15 (main.py:181-182). */
  function SymbolsThenSpaces(s: string): (r: string)
    ensures |r| <= |s|
    ensures NoAdjacentSpace(r)
  {
    StageEffects(17, ApplyStage(16, s));
    ApplyStage(17, ApplyStage(16, s))
  }

  /** `[C]+\s?[C]+` for a class `C`; `clean_multi_symbols` is this shape. */
  function PairPattern(cls: seq<Atom>): Pattern {
    [[AtLeast(cls, 1), Optional([Space]), AtLeast(cls, 1)]]
  }

  /** A class member, one whitespace character outside the class, and another
      member: the pattern takes all three. */
  lemma PairSpansOneSpace(cls: seq<Atom>, t: string)
    requires |t| == 3 && InClass(cls, t[0]) && InClass(cls, t[2])
    requires IsSpace(t[1]) && !InClass(cls, t[1]) && !IsSpace(t[2])
    ensures MatchAt(PairPattern(cls), t) == Some(3)
  {
    var nodes := PairPattern(cls)[0];
    SpaceClass(t[1]);
    SpaceClass(t[2]);
    assert Run(cls, t, 2) == 1 && Run(cls, t, 0) == 1 && Run([Space], t, 1) == 1;
    assert nodes[2..][1..] == [];
    assert MatchNodes(nodes[2..], t, 2) == GreedyFrom(nodes[2..], t, 2, 1) == Some(3);
    assert MatchNodes(nodes[1..], t, 1) == GreedyFrom(nodes[1..], t, 1, 1) == Some(3);
    assert MatchNodes(nodes, t, 0) == GreedyFrom(nodes, t, 0, 1) == Some(3);
  }

  /** A class member followed by two whitespace characters outside the class: the
      optional space takes at most one of them, so the pattern fails there. */
  lemma PairStopsAtTwoSpaces(cls: seq<Atom>, t: string)
    requires |t| >= 3 && InClass(cls, t[0]) && !InClass(cls, t[1]) && !InClass(cls, t[2])
    requires IsSpace(t[1])
    ensures MatchAt(PairPattern(cls), t).None?
  {
    var p := PairPattern(cls);
    var nodes := p[0];
    SpaceClass(t[1]);
    assert Run(cls, t, 1) == 0 && Run(cls, t, 2) == 0;
    assert Avail(nodes[1], t, 1) == 1;
    assert MatchNodes(nodes[2..], t, 2).None? && MatchNodes(nodes[2..], t, 1).None?;
    assert MatchNodes(nodes[1..], t, 1) == GreedyFrom(nodes[1..], t, 1, 1);
    assert GreedyFrom(nodes[1..], t, 1, 1).None?;
    assert Avail(nodes[0], t, 0) == Run(cls, t, 0) == 1;
    assert MatchNodes(nodes, t, 0) == GreedyFrom(nodes, t, 0, 1);
    assert p[1..] == [];
  }

  /** A lone class member at the end of the text is no match. */
  lemma PairNeedsSecond(cls: seq<Atom>, t: string)
    requires |t| == 1
    ensures MatchAt(PairPattern(cls), t).None?
  {
    var p := PairPattern(cls);
    var nodes := p[0];
    assert Run(cls, t, 1) == 0 && Run([Space], t, 1) == 0;
    assert MatchNodes(nodes[2..], t, 1).None?;
    assert MatchNodes(nodes[1..], t, 1) == GreedyFrom(nodes[1..], t, 1, 0);
    assert MatchNodes(nodes[1..], t, 1).None?;
    if InClass(cls, t[0]) {
      assert MatchNodes(nodes, t, 0) == GreedyFrom(nodes, t, 0, 1);
    } else {
      assert Avail(nodes[0], t, 0) == 0;
    }
    assert p[1..] == [];
  }

  /** The pattern cannot start at a character outside the class. */
  lemma PairStartsInside(cls: seq<Atom>, t: string)
    requires |t| > 0 && !InClass(cls, t[0])
    ensures MatchAt(PairPattern(cls), t).None?
  {
    var p := PairPattern(cls);
    assert Avail(p[0][0], t, 0) == 0;
    assert p[1..] == [];
  }

  lemma SymbolMembers()
    ensures MultiSymbols == PairPattern(Symbols)
    ensures InClass(Symbols, '>')
    ensures !InClass(Symbols, ' ')
  {
    assert AtomHas(Symbols[0], '>');
    forall k | 0 <= k < |Symbols| ensures !AtomHas(Symbols[k], ' ') {
    }
    ClassMembers(Symbols, ' ');
  }

  /** No symbol is whitespace. */
  lemma SymbolNotSpace(c: char)
    requires InClass(Symbols, c)
    ensures !IsSpace(c)
  {
    forall k | 0 <= k < |Symbols| ensures Symbols[k].Ch? && !IsSpace(Symbols[k].c) {
    }
    ClassMembers(Symbols, c);
    var k :| 0 <= k < |Symbols| && AtomHas(Symbols[k], c);
    assert c == Symbols[k].c;
  }

  /** Every pair pattern needs two characters. */
  lemma PairNeedsTwo(cls: seq<Atom>)
    ensures ShortestMatch(PairPattern(cls)) == 2
  {
    var nodes := PairPattern(cls)[0];
    assert nodes[1..][1..][1..] == [];
    assert MinLen(nodes[1..][1..]) == 1 + MinLen(nodes[1..][1..][1..]);
    assert MinLen(nodes[1..]) == 0 + MinLen(nodes[1..][1..]);
    assert MinLen(nodes) == 1 + MinLen(nodes[1..]);
  }

  /** The pair step on a member, two spaces outside the class and a member: no match
      anywhere, so the text is unchanged. */
  lemma PairFirstRound(cls: seq<Atom>, t: string)
    requires |t| == 4 && t[1] == ' ' && t[2] == ' ' && !InClass(cls, ' ')
    requires InClass(cls, t[0]) && InClass(cls, t[3])
    ensures Sub(PairPattern(cls), " ", t) == t
  {
    PairNeedsTwo(cls);
    SpaceClass(' ');
    forall j | 0 <= j < |t| ensures MatchAt(PairPattern(cls), t[j..]).None? {
      if j == 0 {
        PairStopsAtTwoSpaces(cls, t);
      } else if j < 3 {
        PairStartsInside(cls, t[j..]);
      } else {
        PairNeedsSecond(cls, t[j..]);
      }
    }
    SubNoMatch(PairPattern(cls), " ", t);
  }

  /** The pair step on a member, a space outside the class and a non-space member:
      the whole text is one match. */
  lemma PairSecondRound(cls: seq<Atom>, t: string)
    requires |t| == 3 && t[1] == ' ' && !InClass(cls, ' ')
    requires InClass(cls, t[0]) && InClass(cls, t[2]) && !IsSpace(t[2])
    ensures Sub(PairPattern(cls), " ", t) == " "
  {
    PairNeedsTwo(cls);
    SpaceClass(' ');
    PairSpansOneSpace(cls, t);
    SubHitStep(PairPattern(cls), " ", t, 3);
    assert t[3..] == [];
  }

  /** The whitespace step on a non-space, two spaces and a non-space: the two spaces
      become one. */
  lemma SpacesFirstRound(t: string)
    requires |t| == 4 && t[1] == ' ' && t[2] == ' ' && !IsSpace(t[0]) && !IsSpace(t[3])
    ensures Sub(MultiSpace, " ", t) == [t[0], ' ', t[3]]
  {
    SpaceNeedTwo();
    SpaceClass(t[0]);
    SpaceClass(' ');
    SpaceClass(t[3]);
    RunMatch([Space], 2, t);
    RunMatch([Space], 2, t[1..]);
    RunMatch([Space], 2, t[3..]);
    assert Run([Space], t, 0) == 0 && Run([Space], t[3..], 0) == 0;
    assert Run([Space], t[1..], 0) == 2;
    SubMissStep(MultiSpace, " ", t[3..]);
    assert t[3..][1..] == [];
    SubHitStep(MultiSpace, " ", t[1..], 2);
    assert t[1..][2..] == t[3..];
    SubMissStep(MultiSpace, " ", t);
  }

  /** The whitespace step on a single space leaves it alone. */
  lemma SpacesSecondRound(t: string)
    requires t == [' ']
    ensures Sub(MultiSpace, " ", t) == t
  {
    SpaceNeedTwo();
    SpaceClass(' ');
    RunMatch([Space], 2, t);
    assert Run([Space], t, 0) == 1;
    SubMissStep(MultiSpace, " ", t);
    assert t[1..] == [];
  }

  /** The two steps, spelled out. */
  lemma SymbolsThenSpacesSteps(s: string)
    ensures SymbolsThenSpaces(s) == Sub(MultiSpace, " ", Sub(PairPattern(Symbols), " ", s))
  {
    assert Stage(16) == (MultiSymbols, " ") && Stage(17) == (MultiSpace, " ");
    SymbolMembers();
  }

  /** Why the stability of steps 16 and 17 needs input without adjacent whitespace:
      for any two symbols `a` and `b` (for instance `>  >`), `a  b` comes out as
      `a b`, in which the symbol pattern now matches, and a second round turns that
      into a single space. Step 15 never passes on `a  b`. */
  lemma SymbolsThenSpacesNotStable(a: char, b: char)
    requires InClass(Symbols, a) && InClass(Symbols, b)
    ensures SymbolsThenSpaces([a, ' ', ' ', b]) == [a, ' ', b]
    ensures SymbolsThenSpaces([a, ' ', b]) == [' ']
    ensures SymbolsThenSpaces(SymbolsThenSpaces([a, ' ', ' ', b])) != SymbolsThenSpaces([a, ' ', ' ', b])
  {
    var four, three := [a, ' ', ' ', b], [a, ' ', b];
    SymbolsThenSpacesSteps(four);
    SymbolsThenSpacesSteps(three);
    SymbolMembers();
    SymbolNotSpace(a);
    SymbolNotSpace(b);
    PairFirstRound(Symbols, four);
    SpacesFirstRound(four);
    PairSecondRound(Symbols, three);
    SpacesSecondRound([' ']);
  }

  /** `[C]+\s?[C]+` matches at the start of a text exactly when the text starts with
      two members, or with a member, one whitespace character and a member. */
  lemma PairMatch(cls: seq<Atom>, t: string)
    ensures MatchAt(PairPattern(cls), t).Some? <==>
      |t| >= 2 && InClass(cls, t[0]) &&
      (InClass(cls, t[1]) || (|t| >= 3 && IsSpace(t[1]) && InClass(cls, t[2])))
  {
    var p := PairPattern(cls);
    var nodes := p[0];
    assert p[1..] == [];
    assert MatchAt(p, t) == MatchNodes(nodes, t, 0);
    var a := Run(cls, t, 0);
    assert Avail(nodes[0], t, 0) == a;
    if a >= 2 {
      PairTail(cls, t, 1);
      GreedyReaches(nodes, t, 0, a, 1);
    } else if a == 1 {
      PairTail(cls, t, 1);
      assert MatchNodes(nodes, t, 0) == GreedyFrom(nodes, t, 0, 1);
      assert GreedyFrom(nodes, t, 0, 1) == MatchNodes(nodes[1..], t, 1);
      if |t| >= 2 {
        assert Run(cls, t, 1) >= 1 <==> InClass(cls, t[1]);
      }
      if |t| >= 3 {
        assert Run(cls, t, 2) >= 1 <==> InClass(cls, t[2]);
      }
    }
  }

  /** After the first run, the rest `\s?[C]+` matches at `i` exactly when a member
      follows at `i`, or a whitespace character and a member do. */
  lemma PairTail(cls: seq<Atom>, t: string, i: nat)
    requires i <= |t|
    ensures MatchNodes(PairPattern(cls)[0][1..], t, i).Some? <==>
      Run(cls, t, i) >= 1 || (i < |t| && IsSpace(t[i]) && Run(cls, t, i + 1) >= 1)
  {
    var nodes := PairPattern(cls)[0][1..];
    var last := nodes[1..];
    assert last == [AtLeast(cls, 1)];
    GreedyAlone(AtLeast(cls, 1), t, i);
    if i < |t| {
      GreedyAlone(AtLeast(cls, 1), t, i + 1);
      SpaceClass(t[i]);
    }
    if i < |t| && IsSpace(t[i]) {
      assert Run([Space], t, i) >= 1;
      assert Avail(nodes[0], t, i) == 1;
      assert MatchNodes(nodes, t, i) == GreedyFrom(nodes, t, i, 1);
      assert GreedyFrom(nodes, t, i, 0) == MatchNodes(last, t, i);
      assert GreedyFrom(nodes, t, i, 1) ==
        if MatchNodes(last, t, i + 1).Some? then MatchNodes(last, t, i + 1) else GreedyFrom(nodes, t, i, 0);
    } else {
      assert Run([Space], t, i) == 0;
      assert MatchNodes(nodes, t, i) == GreedyFrom(nodes, t, i, 0);
    }
  }

  /** No member of the class is whitespace. */
  predicate SolidClass(cls: seq<Atom>) {
    forall c :: InClass(cls, c) ==> !IsSpace(c)
  }

  lemma SymbolsSolid()
    ensures SolidClass(Symbols)
  {
    forall c | InClass(Symbols, c) ensures !IsSpace(c) {
      SymbolNotSpace(c);
    }
  }

  /** The first character of `s` that is not whitespace, if any. */
  function FirstSolid(s: string): Option<char>
    decreases |s|
  {
    if |s| == 0 then None else if IsSpace(s[0]) then FirstSolid(s[1..]) else Some(s[0])
  }

  /** No two class members have nothing but whitespace (or nothing at all) between
      them: after each member, the next character that is not whitespace is not a
      member. */
  predicate Spread(cls: seq<Atom>, s: string)
    decreases |s|
  {
    |s| == 0 ||
    (Spread(cls, s[1..]) &&
     (InClass(cls, s[0]) && FirstSolid(s[1..]).Some? ==> !InClass(cls, FirstSolid(s[1..]).value)))
  }

  lemma {:induction false} SpreadDrop(cls: seq<Atom>, s: string, k: nat)
    requires k <= |s| && Spread(cls, s)
    ensures Spread(cls, s[k..])
    decreases k
  {
    if k > 0 {
      SpreadDrop(cls, s[1..], k - 1);
      assert s[1..][k - 1..] == s[k..];
    }
  }

  /** Leading whitespace does not change the first solid character. */
  lemma {:induction false} FirstSolidSkip(s: string, k: nat)
    requires k <= |s| && forall j :: 0 <= j < k ==> IsSpace(s[j])
    ensures FirstSolid(s) == FirstSolid(s[k..])
    decreases k
  {
    if k > 0 {
      FirstSolidSkip(s[1..], k - 1);
      assert s[1..][k - 1..] == s[k..];
    }
  }

  /** A space in front changes neither the first solid character nor the spacing of
      a class without whitespace. */
  lemma SpaceInFront(cls: seq<Atom>, r: string)
    requires SolidClass(cls)
    ensures FirstSolid(" " + r) == FirstSolid(r)
    ensures Spread(cls, r) ==> Spread(cls, " " + r)
  {
    assert (" " + r)[1..] == r;
    SpaceChars();
  }

  /** In text where no two members are separated by whitespace alone, the pair
      pattern matches nowhere. */
  lemma SpreadNoPair(cls: seq<Atom>, z: string)
    requires SolidClass(cls) && Spread(cls, z)
    ensures forall j :: 0 <= j < |z| ==> MatchAt(PairPattern(cls), z[j..]).None?
  {
    forall j | 0 <= j < |z| ensures MatchAt(PairPattern(cls), z[j..]).None? {
      SpreadDrop(cls, z, j);
      SpreadNoPairAt(cls, z[j..]);
    }
  }

  lemma SpreadNoPairAt(cls: seq<Atom>, t: string)
    requires SolidClass(cls) && Spread(cls, t) && |t| > 0
    ensures MatchAt(PairPattern(cls), t).None?
  {
    PairMatch(cls, t);
    if |t| >= 2 {
      assert t[1..][1..] == t[2..];
      assert FirstSolid(t[1..]) == if IsSpace(t[1]) then FirstSolid(t[2..]) else Some(t[1]);
      if |t| >= 3 {
        assert FirstSolid(t[2..]) == if IsSpace(t[2]) then FirstSolid(t[2..][1..]) else Some(t[2]);
      }
    }
  }

  /** The whitespace step keeps the first solid character, and keeps members apart
      when they were apart: it only shortens runs of whitespace, never to nothing. */
  lemma {:induction false} SpaceSubSpread(cls: seq<Atom>, y: string)
    requires SolidClass(cls)
    ensures ShortestMatch(MultiSpace) == 2
    ensures FirstSolid(Sub(MultiSpace, " ", y)) == FirstSolid(y)
    ensures Spread(cls, y) ==> Spread(cls, Sub(MultiSpace, " ", y))
    decreases |y|
  {
    SpaceNeedTwo();
    RunMatch([Space], 2, y);
    if |y| > 0 {
      var k := Run([Space], y, 0);
      if k >= 2 {
        SubHitStep(MultiSpace, " ", y, k);
        SpaceSubSpread(cls, y[k..]);
        forall j | 0 <= j < k ensures IsSpace(y[j]) {
          SpaceClass(y[j]);
        }
        FirstSolidSkip(y, k);
        if Spread(cls, y) {
          SpreadDrop(cls, y, k);
        }
        SpaceInFront(cls, Sub(MultiSpace, " ", y[k..]));
      } else {
        SubMissStep(MultiSpace, " ", y);
        SpaceSubSpread(cls, y[1..]);
        var r := Sub(MultiSpace, " ", y[1..]);
        assert ([y[0]] + r)[1..] == r;
      }
    }
  }

  /** No two whitespace characters side by side in a suffix either. */
  lemma NoAdjacentSpaceDrop(x: string, m: nat)
    requires m <= |x| && NoAdjacentSpace(x)
    ensures NoAdjacentSpace(x[m..])
  {
    forall i | 0 <= i < |x[m..]| - 1 ensures !(IsSpace(x[m..][i]) && IsSpace(x[m..][i + 1])) {
      assert x[m..][i] == x[m + i] && x[m..][i + 1] == x[m + i + 1];
    }
  }

  /** Where the pair pattern does not start, the step keeps the character. */
  lemma PairMissOutside(cls: seq<Atom>, t: string)
    requires |t| > 0 && !InClass(cls, t[0])
    ensures ShortestMatch(PairPattern(cls)) == 2
    ensures Sub(PairPattern(cls), " ", t) == [t[0]] + Sub(PairPattern(cls), " ", t[1..])
  {
    PairNeedsTwo(cls);
    PairStartsInside(cls, t);
    SubMissStep(PairPattern(cls), " ", t);
  }

  /** A member the pair step keeps is followed, in the step's output, by whitespace
      and then a non-member or by nothing solid at all. */
  lemma SurvivorGap(cls: seq<Atom>, x: string)
    requires SolidClass(cls) && NoAdjacentSpace(x)
    requires |x| > 0 && InClass(cls, x[0]) && MatchAt(PairPattern(cls), x).None?
    ensures ShortestMatch(PairPattern(cls)) == 2
    ensures var r := Sub(PairPattern(cls), " ", x[1..]);
      FirstSolid(r).Some? ==> !InClass(cls, FirstSolid(r).value)
  {
    PairNeedsTwo(cls);
    PairMatch(cls, x);
    if |x| >= 2 {
      var t := x[1..];
      PairMissOutside(cls, t);
      var r2 := Sub(PairPattern(cls), " ", t[1..]);
      assert Sub(PairPattern(cls), " ", t) == [x[1]] + r2;
      assert ([x[1]] + r2)[1..] == r2;
      if IsSpace(x[1]) && |x| >= 3 {
        assert t[1..] == x[2..];
        PairMissOutside(cls, x[2..]);
        var r3 := Sub(PairPattern(cls), " ", x[3..]);
        assert x[2..][1..] == x[3..];
        assert r2 == [x[2]] + r3;
        assert !IsSpace(x[2]);
      } else if IsSpace(x[1]) {
        assert t[1..] == [];
      }
    }
  }

  /** On text with no two whitespace characters side by side, the pair step leaves
      no two members with only whitespace between them: a member it keeps was not
      followed by a member or by one whitespace character and a member. */
  lemma {:induction false} PairSubSpread(cls: seq<Atom>, x: string)
    requires SolidClass(cls) && NoAdjacentSpace(x)
    ensures ShortestMatch(PairPattern(cls)) == 2
    ensures Spread(cls, Sub(PairPattern(cls), " ", x))
    decreases |x|
  {
    PairNeedsTwo(cls);
    if |x| > 0 {
      var p := PairPattern(cls);
      var m := MatchAt(p, x);
      if m.Some? {
        SubHitStep(p, " ", x, m.value);
        NoAdjacentSpaceDrop(x, m.value);
        PairSubSpread(cls, x[m.value..]);
        SpaceInFront(cls, Sub(p, " ", x[m.value..]));
      } else {
        SubMissStep(p, " ", x);
        NoAdjacentSpaceDrop(x, 1);
        PairSubSpread(cls, x[1..]);
        var r := Sub(p, " ", x[1..]);
        assert ([x[0]] + r)[1..] == r;
        if InClass(cls, x[0]) {
          SurvivorGap(cls, x);
        }
      }
    }
  }

  /** Steps 16 and 17 settle on text without adjacent whitespace: running them a
      second time on their own output changes nothing. */
  lemma SymbolsThenSpacesSettles(s: string)
    requires NoAdjacentSpace(s)
    ensures SymbolsThenSpaces(SymbolsThenSpaces(s)) == SymbolsThenSpaces(s)
  {
    var z := SymbolsThenSpaces(s);
    SymbolsThenSpacesSteps(s);
    SymbolsThenSpacesSteps(z);
    SymbolsSolid();
    PairSubSpread(Symbols, s);
    SpaceSubSpread(Symbols, Sub(PairPattern(Symbols), " ", s));
    SpreadNoPair(Symbols, z);
    SubNoMatch(PairPattern(Symbols), " ", z);
    SpacePassKeeps(z);
  }

  /** Steps 16 and 17 are the last two steps of the cascade. */
  lemma LastTwoSteps(t: string)
    ensures CascadeFrom(16, t) == SymbolsThenSpaces(t)
  {
    assert CascadeFrom(16, t) == CascadeFrom(17, ApplyStage(16, t));
  }

  /** The steps from `k` on are step `k` followed by the steps from `k + 1` on. */
  lemma CascadeStep(k: nat, t: string, next: string)
    requires k < 17 && next == ApplyStage(k, t)
    ensures CascadeFrom(k, t) == CascadeFrom(k + 1, next)
  {
  }

  /** The remaining steps from `k` on leave text that steps 16 and 17 do not change;
      from step 16 on this needs text without adjacent whitespace, which step 15
      provides. */
  lemma {:induction false} TailSettled(k: nat, t: string)
    requires k <= 16 && (k == 16 ==> NoAdjacentSpace(t))
    ensures SymbolsThenSpaces(CascadeFrom(k, t)) == CascadeFrom(k, t)
    decreases 16 - k
  {
    if k == 16 {
      LastTwoSteps(t);
      SymbolsThenSpacesSettles(t);
    } else {
      var next := ApplyStage(k, t);
      if k == 15 {
        SpaceStage(15, t);
      }
      TailSettled(k + 1, next);
      CascadeStep(k, t, next);
    }
  }

  /** The cascade's output is a fixed point of its last two steps: running
      `clean_multi_symbols` and `clean_multi_space` once more changes nothing. */
  lemma CascadeSettled(text: string)
    ensures SymbolsThenSpaces(Cascade(text)) == Cascade(text)
  {
    TailSettled(0, text);
  }

  // ---------------------------------------------------------------------------
  // The record's body, main.py:162-187

  /** Stripping a text keeps its characters and takes no two whitespace characters
      side by side into it. */
  lemma StripInside(s: string)
    ensures forall c :: c in Strip(s) ==> c in s
    ensures NoAdjacentSpace(s) ==> NoAdjacentSpace(Strip(s))
  {
    var a := LeadingSpaces(s);
    var r := Strip(s);
    assert forall i :: 0 <= i < |r| ==> r[i] == s[a + i];
  }

  /** Lines without newlines join into one line. */
  lemma JoinedLine(lines: seq<string>)
    ensures (forall j :: 0 <= j < |lines| ==> '\n' !in lines[j]) ==> '\n' !in Join(lines, ' ')
  {
    if forall j :: 0 <= j < |lines| ==> '\n' !in lines[j] {
      JoinAvoids(lines, ' ', '\n');
    }
  }

  /** The body: the lines after the 17 header slots, joined with single spaces and
      stripped, put through the cascade, and stripped again. It is no longer than the
      joined lines, has no newline when the lines have none, neither starts nor ends
      with whitespace, and has no two whitespace characters side by side. */
  function Body(lines: seq<string>): (r: string)
    ensures |r| <= |Join(lines, ' ')|
    ensures (forall j :: 0 <= j < |lines| ==> '\n' !in lines[j]) ==> '\n' !in r
    ensures |r| == 0 || (!IsSpace(r[0]) && !IsSpace(r[|r| - 1]))
    ensures NoAdjacentSpace(r)
  {
    var joined := Join(lines, ' ');
    var text := Strip(joined);
    StripInside(joined);
    var cleaned := Cascade(text);
    StripInside(cleaned);
    JoinedLine(lines);
    assert '\n' !in joined ==> '\n' !in text;
    assert '\n' !in text ==> '\n' !in cleaned;
    Strip(cleaned)
  }
}
