/** The header split (main.py:156-160): each of the 17 slot lines becomes a key and a
    value at its first colon, and the pairs are collected into the record's
    dictionary. */
module Headers {
  import opened Text
  import opened Schema

  /** `line.split(":")[0]` and `':'.join(line.split(":")[1:]).strip()`. The key is the
      text before the first colon (the whole line when there is none); the value is
      everything after that colon, later colons included, stripped. */
  function SplitHeader(line: string): (kv: (string, string))
    ensures ':' !in kv.0
    ensures ':' in line ==>
      && |kv.0| < |line| && line[..|kv.0|] == kv.0 && line[|kv.0|] == ':'
      && kv.1 == Strip(line[|kv.0| + 1..])
    ensures ':' !in line ==> kv == (line, "")
  {
    var parts := Split(line, ':');
    SplitCount(line, ':');
    if ':' in line then
      SplitFirst(line, ':');
      assert line[|parts[0]| + 1..] == Join(parts[1..], ':');
      (parts[0], Strip(Join(parts[1..], ':')))
    else
      assert parts[1..] == [];
      (parts[0], Strip(Join(parts[1..], ':')))
  }

  function KeyOf(line: string): string {
    SplitHeader(line).0
  }

  /** The key of a line that starts with a colon-free name `name` begins with `name`:
      the first colon cannot come before the end of the name. */
  lemma SlotKey(line: string, name: string)
    requires StartsWith(line, name) && ':' !in name
    ensures StartsWith(KeyOf(line), name)
  {
    var key := KeyOf(line);
    if ':' in line {
      assert line[..|name|] == key[..|name|];
    }
  }

  /** A synthetic slot line `name: ` yields the key `name` and an empty value. */
  lemma PlaceholderHeader(pos: nat)
    requires pos < |Keys|
    ensures SplitHeader(Placeholder(pos)) == (Keys[pos], "")
  {
    NamesFacts();
    assert Fields[pos] == Keys[pos];
    var line := Placeholder(pos);
    var name := Keys[pos];
    assert line[|name|] == ':';
    assert ':' in line;
    SlotKey(line, name);
    var key := KeyOf(line);
    assert key == name;
    assert line[|name| + 1..] == " ";
    assert LeadingSpaces(" ") == 1;
  }

  /** No later pair has the same key as pair `j`. */
  predicate LastWithKey(pairs: seq<(string, string)>, j: nat)
    requires j < |pairs|
  {
    forall j' :: j < j' < |pairs| ==> pairs[j'].0 != pairs[j].0
  }

  /** `d[key] = val` for each pair in order, starting from an empty dictionary. Every
      pair's key is in the dictionary, and every key in it comes from some pair. */
  function BuildDict(pairs: seq<(string, string)>): (d: map<string, string>)
    ensures forall j :: 0 <= j < |pairs| ==> pairs[j].0 in d
    ensures forall k :: k in d ==> exists j :: 0 <= j < |pairs| && pairs[j].0 == k
    decreases |pairs|
  {
    if |pairs| == 0 then map[]
    else
      var init := pairs[..|pairs| - 1];
      var last := pairs[|pairs| - 1];
      var d := BuildDict(init)[last.0 := last.1];
      assert forall j :: 0 <= j < |init| ==> init[j] == pairs[j];
      assert forall k :: k in d ==> exists j :: 0 <= j < |pairs| && pairs[j].0 == k by {
        forall k | k in d ensures exists j :: 0 <= j < |pairs| && pairs[j].0 == k {
          if k != last.0 {
            var j :| 0 <= j < |init| && init[j].0 == k;
            assert pairs[j].0 == k;
          }
        }
      }
      d
  }

  /** A key that occurs in several pairs keeps the value of the last of them. */
  lemma {:induction false} BuildDictLastWins(pairs: seq<(string, string)>, j: nat)
    requires j < |pairs| && LastWithKey(pairs, j)
    ensures pairs[j].0 in BuildDict(pairs)
    ensures BuildDict(pairs)[pairs[j].0] == pairs[j].1
    decreases |pairs|
  {
    var init := pairs[..|pairs| - 1];
    if j < |init| {
      assert init[j] == pairs[j];
      assert pairs[j].0 != pairs[|pairs| - 1].0;
      assert LastWithKey(init, j) by {
        forall j' | j < j' < |init| ensures init[j'].0 != init[j].0 {
          assert init[j'] == pairs[j'];
        }
      }
      BuildDictLastWins(init, j);
    }
  }

  /** The header lines split into key/value pairs, in order. */
  function HeaderPairs(lines: seq<string>): (pairs: seq<(string, string)>)
    ensures |pairs| == |lines|
    ensures forall j :: 0 <= j < |lines| ==> pairs[j] == SplitHeader(lines[j])
  {
    seq(|lines|, j requires 0 <= j < |lines| => SplitHeader(lines[j]))
  }

  /** No later line has the same key as line `j`. */
  predicate LastLineWithKey(lines: seq<string>, j: nat)
    requires j < |lines|
  {
    forall j' :: j < j' < |lines| ==> KeyOf(lines[j']) != KeyOf(lines[j])
  }

  /** The record's header dictionary: `email_dict[key] = val` for each slot line. Its
      keys are exactly the lines' keys, and a key holds the value of the last line
      that has it. */
  function HeaderMap(lines: seq<string>): (d: map<string, string>)
    ensures forall j :: 0 <= j < |lines| ==> KeyOf(lines[j]) in d
    ensures forall k :: k in d ==> exists j :: 0 <= j < |lines| && KeyOf(lines[j]) == k
    ensures forall j :: 0 <= j < |lines| && LastLineWithKey(lines, j) ==>
      d[KeyOf(lines[j])] == SplitHeader(lines[j]).1
  {
    LinesLastWin(lines);
    BuildDict(HeaderPairs(lines))
  }

  lemma LinesLastWin(lines: seq<string>)
    ensures forall j :: 0 <= j < |lines| && LastLineWithKey(lines, j) ==>
      BuildDict(HeaderPairs(lines))[KeyOf(lines[j])] == SplitHeader(lines[j]).1
  {
    var pairs := HeaderPairs(lines);
    forall j | 0 <= j < |lines| && LastLineWithKey(lines, j)
      ensures BuildDict(pairs)[KeyOf(lines[j])] == SplitHeader(lines[j]).1
    {
      assert LastWithKey(pairs, j);
      BuildDictLastWins(pairs, j);
    }
  }
}
