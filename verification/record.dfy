/** From a raw message to its record (main.py:100-190): the literal rewrites, the split
    into lines, the missing-field repair, the header dictionary over the 17 slots and
    the cleaned body under the key "body". */
module Record {
  import opened Results
  import opened Text
  import opened Schema
  import opened PrePass
  import opened Splitter
  import opened Headers
  import opened Cleaning

  /** `email_dict`: field name to value, plus the key "body". */
  type Email = map<string, string>

  /** `message.split("\n")` after the literal rewrites: at least one line, none with
      a newline, and joining them back gives the rewritten message. */
  function Lines(raw: string): (lines: seq<string>)
    ensures |lines| >= 1
    ensures forall j :: 0 <= j < |lines| ==> '\n' !in lines[j]
    ensures Join(lines, '\n') == Clean(raw)
  {
    JoinSplit(Clean(raw), '\n');
    Split(Clean(raw), '\n')
  }

  /** The lines after the 17 slots of a repaired message are original lines, so
      none of them holds a newline. */
  lemma BodyLinesOneLine(lines: seq<string>)
    requires Repair(lines).Ok?
    requires forall j :: 0 <= j < |lines| ==> '\n' !in lines[j]
    ensures |Repair(lines).value| >= 17
    ensures var slots := Repair(lines).value;
      forall j :: 17 <= j < |slots| ==> '\n' !in slots[j]
  {
    var slots := Repair(lines).value;
    RepairShape(lines);
    NamesFacts();
    var k := CountTrue(Synthetic(Keys, lines, 0));
    assert slots[17..] == lines[17 - k..];
    forall j | 17 <= j < |slots| ensures '\n' !in slots[j] {
      assert slots[j] == slots[17..][j - 17] == lines[17 - k + j - 17];
    }
  }

  /** The record built from the repaired lines: the header dictionary of the first 17
      lines and the cleaned body of the rest. The body is one line when the lines
      are, trimmed, with no two whitespace characters side by side. */
  function Assemble(slots: seq<string>): (rec: Email)
    requires |slots| >= 17
    ensures "body" in rec
    ensures (forall j :: 17 <= j < |slots| ==> '\n' !in slots[j]) ==> '\n' !in rec["body"]
    ensures var body := rec["body"];
      && (|body| == 0 || (!IsSpace(body[0]) && !IsSpace(body[|body| - 1])))
      && NoAdjacentSpace(body)
  {
    var body := Body(slots[17..]);
    BodyOfSlots(slots);
    HeaderMap(slots[..17])["body" := body]
  }

  /** The body of slot lines that hold no newline after the slots holds none. */
  lemma BodyOfSlots(slots: seq<string>)
    requires |slots| >= 17
    ensures (forall j :: 17 <= j < |slots| ==> '\n' !in slots[j]) ==> '\n' !in Body(slots[17..])
  {
    var lines := slots[17..];
    if forall j :: 17 <= j < |slots| ==> '\n' !in slots[j] {
      assert forall j :: 0 <= j < |lines| ==> lines[j] == slots[17 + j];
    }
  }

  /** The record of one message, or the `IndexError` raised when the message has too
      few lines to fill the 17 slots. Seventeen lines are always enough; on failure
      the missing slot lies at or beyond the last line. A record always has a body,
      which is one line, trimmed, with no two whitespace characters side by side. */
  function ParseMessage(raw: string): (r: Result<Email, RepairError>)
    ensures |Lines(raw)| >= |Keys| ==> r.Ok?
    ensures r.Err? ==> |Lines(raw)| <= r.error.pos < |Keys|
    ensures r.Ok? ==> "body" in r.value
    ensures r.Ok? ==> var body := r.value["body"];
      && '\n' !in body
      && (|body| == 0 || (!IsSpace(body[0]) && !IsSpace(body[|body| - 1])))
      && NoAdjacentSpace(body)
  {
    var lines := Lines(raw);
    match Repair(lines)
    case Err(e) => Err(e)
    case Ok(slots) =>
      BodyLinesOneLine(lines);
      Ok(Assemble(slots))
  }

  /** The key each slot line yields starts with that slot's field name. */
  lemma SlotKeys(slots: seq<string>)
    requires Aligned(slots)
    ensures forall pos :: 0 <= pos < |Keys| ==> StartsWith(KeyOf(slots[pos]), Keys[pos])
  {
    NamesFacts();
    forall pos | 0 <= pos < |Keys| ensures StartsWith(KeyOf(slots[pos]), Keys[pos]) {
      assert Fields[pos] == Keys[pos];
      SlotKey(slots[pos], Keys[pos]);
    }
  }

  /** Different slots yield different keys, and none of them is "body". */
  lemma SlotKeysDistinct(slots: seq<string>)
    requires Aligned(slots)
    ensures forall a, b :: 0 <= a < b < |Keys| ==> KeyOf(slots[a]) != KeyOf(slots[b])
    ensures forall pos :: 0 <= pos < |Keys| ==> KeyOf(slots[pos]) != "body"
  {
    SlotKeysDiffer(slots);
    SlotKeysNotBody(slots);
  }

  lemma SlotKeysDiffer(slots: seq<string>)
    requires Aligned(slots)
    ensures forall a, b :: 0 <= a < b < |Keys| ==> KeyOf(slots[a]) != KeyOf(slots[b])
  {
    SlotKeys(slots);
    forall a, b | 0 <= a < b < |Keys| ensures KeyOf(slots[a]) != KeyOf(slots[b]) {
      if KeyOf(slots[a]) == KeyOf(slots[b]) {
        OneNamePerLine(a, b, KeyOf(slots[a]));
      }
    }
  }

  lemma SlotKeysNotBody(slots: seq<string>)
    requires Aligned(slots)
    ensures forall pos :: 0 <= pos < |Keys| ==> KeyOf(slots[pos]) != "body"
  {
    assert SlotOf("body") == -1;
    SlotKeysAvoid(slots, "body");
  }

  /** No slot's key is a text that starts with no field name. */
  lemma SlotKeysAvoid(slots: seq<string>, w: string)
    requires Aligned(slots) && SlotOf(w) == -1
    ensures forall pos :: 0 <= pos < |Keys| ==> KeyOf(slots[pos]) != w
  {
    SlotKeys(slots);
    forall pos | 0 <= pos < |Keys| ensures KeyOf(slots[pos]) != w {
      SlotOfName(pos, KeyOf(slots[pos]));
    }
  }

  /** The header dictionary of aligned slot lines holds exactly one entry per slot:
      each slot's key maps to that slot's value, and there are no other keys. */
  lemma HeaderEntries(slots: seq<string>)
    requires Aligned(slots)
    ensures |slots| >= 17
    ensures var header := HeaderMap(slots[..17]);
      && (forall pos :: 0 <= pos < |Keys| ==>
            KeyOf(slots[pos]) in header && header[KeyOf(slots[pos])] == SplitHeader(slots[pos]).1)
      && (forall k :: k in header ==> exists pos :: 0 <= pos < |Keys| && KeyOf(slots[pos]) == k)
  {
    NamesFacts();
    var pairs := HeaderPairs(slots[..17]);
    SlotKeysDistinct(slots);
    forall pos | 0 <= pos < |Keys|
      ensures KeyOf(slots[pos]) in BuildDict(pairs)
      ensures BuildDict(pairs)[KeyOf(slots[pos])] == SplitHeader(slots[pos]).1
    {
      assert pairs[pos] == SplitHeader(slots[pos]);
      assert LastWithKey(pairs, pos) by {
        forall j | pos < j < |pairs| ensures pairs[j].0 != pairs[pos].0 {
          assert pairs[j] == SplitHeader(slots[j]);
        }
      }
      BuildDictLastWins(pairs, pos);
    }
    forall k | k in BuildDict(pairs)
      ensures exists pos :: 0 <= pos < |Keys| && KeyOf(slots[pos]) == k
    {
      var j :| 0 <= j < |pairs| && pairs[j].0 == k;
      assert KeyOf(slots[j]) == k;
    }
  }

  /** A record over aligned slot lines holds exactly one entry per slot plus the
      body: each slot's key maps to that slot's value, "body" maps to the body, and
      there are no other keys. */
  lemma RecordEntries(slots: seq<string>, body: string)
    requires Aligned(slots)
    ensures |slots| >= 17
    ensures var rec := HeaderMap(slots[..17])["body" := body];
      && (forall pos :: 0 <= pos < |Keys| ==>
            KeyOf(slots[pos]) in rec && rec[KeyOf(slots[pos])] == SplitHeader(slots[pos]).1)
      && (forall k :: k in rec ==> k == "body" || exists pos :: 0 <= pos < |Keys| && KeyOf(slots[pos]) == k)
      && rec["body"] == body
  {
    HeaderEntries(slots);
    SlotKeysDistinct(slots);
  }

  /** The record of a message holds one entry per slot of its repaired lines, plus
      the body, and nothing else. With `k` fields inserted, the body is made of the
      original lines from `17 - k` on. */
  lemma MessageEntries(raw: string)
    requires ParseMessage(raw).Ok?
    ensures |Repair(Lines(raw)).value| >= 17
    ensures var rec := ParseMessage(raw).value;
      var slots := Repair(Lines(raw)).value;
      && (forall pos :: 0 <= pos < |Keys| ==>
            KeyOf(slots[pos]) in rec && rec[KeyOf(slots[pos])] == SplitHeader(slots[pos]).1)
      && (forall k :: k in rec ==> k == "body" || exists pos :: 0 <= pos < |Keys| && KeyOf(slots[pos]) == k)
    ensures var lines := Lines(raw);
      var k := CountTrue(Synthetic(Keys, lines, 0));
      && k <= 17 && 17 - k <= |lines|
      && ParseMessage(raw).value["body"] == Body(lines[17 - k..])
  {
    var slots := Repair(Lines(raw)).value;
    RepairShape(Lines(raw));
    NamesFacts();
    var body := ParseMessage(raw).value["body"];
    assert ParseMessage(raw).value == HeaderMap(slots[..17])["body" := body];
    assert body == Body(slots[17..]);
    RecordEntries(slots, body);
  }

  /** A field the message lacked is recorded under its own name with an empty
      value. */
  lemma MissingFieldsEmpty(raw: string)
    requires ParseMessage(raw).Ok?
    ensures var lines := Lines(raw);
      var m := Synthetic(Keys, lines, 0);
      |m| == |Keys| &&
      forall pos :: 0 <= pos < |Keys| && m[pos] ==>
        Keys[pos] in ParseMessage(raw).value && ParseMessage(raw).value[Keys[pos]] == ""
  {
    var lines := Lines(raw);
    var slots := Repair(lines).value;
    var m := Synthetic(Keys, lines, 0);
    RepairShape(lines);
    var body := ParseMessage(raw).value["body"];
    assert ParseMessage(raw).value == HeaderMap(slots[..17])["body" := body];
    RecordEntries(slots, body);
    forall pos | 0 <= pos < |Keys| && m[pos]
      ensures Keys[pos] in ParseMessage(raw).value && ParseMessage(raw).value[Keys[pos]] == ""
    {
      PlaceholderHeader(pos);
      assert slots[pos] == Placeholder(pos);
    }
  }

  /** A message whose 17 slot lines already start with their field names keeps all
      its lines: the record is built from them as they are. */
  lemma AlignedMessage(raw: string)
    requires Aligned(Lines(raw))
    ensures ParseMessage(raw).Ok?
    ensures var lines := Lines(raw);
      ParseMessage(raw).value == HeaderMap(lines[..17])["body" := Body(lines[17..])]
  {
    RepairAligned(Lines(raw));
    NamesFacts();
  }

  /** The loop over all messages (main.py:146-190) with the per-message step
      given as `parse`: one result per message, in order; the first failing message
      aborts the run, and that is reported with its index. */
  method ParseEach(messages: seq<string>, parse: string -> Result<Email, RepairError>)
    returns (res: Result<seq<Email>, (nat, RepairError)>)
    ensures res.Ok? ==> |res.value| == |messages|
    ensures res.Ok? ==> forall i :: 0 <= i < |messages| ==> parse(messages[i]) == Ok(res.value[i])
    ensures res.Err? ==> res.error.0 < |messages| && parse(messages[res.error.0]) == Err(res.error.1)
    ensures res.Err? ==> forall j :: 0 <= j < res.error.0 ==> parse(messages[j]).Ok?
    ensures res.Err? <==> exists i :: 0 <= i < |messages| && parse(messages[i]).Err?
  {
    var records: seq<Email> := [];
    var i := 0;
    while i < |messages|
      invariant 0 <= i <= |messages| && |records| == i
      invariant forall j :: 0 <= j < i ==> parse(messages[j]) == Ok(records[j])
    {
      var r := parse(messages[i]);
      if r.Err? {
        return Err((i, r.error));
      }
      records := records + [r.value];
      i := i + 1;
    }
    return Ok(records);
  }

  /** Every message of a run parsed in order: one record per message, or the index of
      the first message with too few lines. */
  method ParseAll(messages: seq<string>) returns (res: Result<seq<Email>, (nat, RepairError)>)
    ensures res.Ok? ==> |res.value| == |messages|
    ensures res.Ok? ==> forall i :: 0 <= i < |messages| ==> ParseMessage(messages[i]) == Ok(res.value[i])
    ensures res.Err? ==> res.error.0 < |messages| && ParseMessage(messages[res.error.0]) == Err(res.error.1)
    ensures res.Err? ==> forall j :: 0 <= j < res.error.0 ==> ParseMessage(messages[j]).Ok?
    ensures res.Err? <==> exists i :: 0 <= i < |messages| && ParseMessage(messages[i]).Err?
  {
    res := ParseEach(messages, ParseMessage);
  }
}
