/** The fixed header schema of a raw message (main.py:114-123). */
module Schema {
  import opened Text

  /** `keys_list`: the header fields in the order a message is expected to carry them. */
  const Keys: seq<string> := [
    "Message-ID", "Date", "From", "To", "Subject", "Cc", "Mime-Version", "Content-Type",
    "Content-Transfer-Encoding", "Bcc", "X-From", "X-To", "X-cc", "X-bcc", "X-Folder",
    "X-Origin", "X-FileName"]

  /** `keys_dict` entry: a field name with its length. */
  datatype Entry = Entry(name: string, length: nat)

  /** `keys_dict`: slot position to schema entry, one entry per slot. */
  function KeysDict(): (d: map<nat, Entry>)
    ensures forall pos: nat :: pos in d <==> pos < |Keys|
    ensures forall pos :: pos in d ==> d[pos].name == Keys[pos] && d[pos].length == |d[pos].name|
  {
    map pos: nat | pos < |Keys| :: Entry(Keys[pos], |Keys[pos]|)
  }

  /** `fields_list`: the schema plus "Sent", the names whose `name:` tokens are
      stripped from bodies. */
  const Fields: seq<string> := Keys + ["Sent"]

  /** `fields_list_plus`: each field as written, then all in lower case, then all in
      upper case. */
  function FieldsPlus(): (names: seq<string>)
    ensures |names| == 3 * |Fields|
    ensures forall k :: 0 <= k < |Fields| ==>
      names[k] == Fields[k] && names[|Fields| + k] == Lower(Fields[k])
      && names[2 * |Fields| + k] == Upper(Fields[k])
  {
    Fields
    + seq(|Fields|, k requires 0 <= k < |Fields| => Lower(Fields[k]))
    + seq(|Fields|, k requires 0 <= k < |Fields| => Upper(Fields[k]))
  }

  /** The line the repair pass inserts for a missing field: `name + ': '`. */
  function Placeholder(pos: nat): (line: string)
    requires pos < |Keys|
    ensures StartsWith(line, Keys[pos])
  {
    Keys[pos] + ": "
  }

  /** Facts about the schema names the rest of the model relies on. */
  lemma NamesFacts()
    ensures |Keys| == 17
    ensures forall k :: 0 <= k < |Fields| ==> |Fields[k]| >= 2
    ensures forall k :: 0 <= k < |Fields| ==> ':' !in Fields[k] && '\n' !in Fields[k]
  {
  }

  /** The slot whose field name a text starts with, told apart by a few of its
      characters (-1 for none). It serves only to prove that no line starts with two
      different field names. */
  function SlotOf(w: string): int {
    if |w| < 2 then -1
    // "Message-ID" against "Mime-Version"
    else if w[0] == 'M' then (if w[1] == 'e' then 0 else 6)
    // the only names starting with D, F, T, S and B
    else if w[0] == 'D' then 1
    else if w[0] == 'F' then 2
    else if w[0] == 'T' then 3
    else if w[0] == 'S' then 4
    else if w[0] == 'B' then 9
    // "Cc"; then "Content-Type" (a `y` after "Content-") against
    // "Content-Transfer-Encoding" (an `r` there)
    else if w[0] == 'C' then (if w[1] == 'c' then 5 else if |w| > 9 && w[9] == 'y' then 7 else 8)
    // the X- names by their third character: "X-To", "X-cc", "X-bcc", "X-Origin";
    // the three X-F names by their fourth: "X-From", "X-Folder", "X-FileName"
    else if w[0] == 'X' && |w| > 3 then
      (if w[2] == 'T' then 11 else if w[2] == 'c' then 12 else if w[2] == 'b' then 13
       else if w[2] == 'O' then 15 else if w[3] == 'r' then 10 else if w[3] == 'o' then 14 else 16)
    else -1
  }

  lemma SlotOfName(pos: nat, w: string)
    requires pos < |Keys| && StartsWith(w, Keys[pos])
    ensures SlotOf(w) == pos
  {
    var name := Keys[pos];
    assert forall i :: 0 <= i < |name| ==> w[i] == name[i];
  }

  /** No field name is a prefix of another, so a text starts with at most one of
      them. */
  lemma OneNamePerLine(a: nat, b: nat, w: string)
    requires a < |Keys| && b < |Keys|
    requires StartsWith(w, Keys[a]) && StartsWith(w, Keys[b])
    ensures a == b
  {
    SlotOfName(a, w);
    SlotOfName(b, w);
  }
}
