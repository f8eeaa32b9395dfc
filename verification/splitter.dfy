/** Missing-field repair (main.py:149-154): a message's lines are walked slot by slot
    against the schema; a slot whose line does not start with the expected field name
    gets a synthetic `name: ` line inserted in front of it. */
module Splitter {
  import opened Results
  import opened Text
  import opened Schema

  /** Reading the line at slot `pos` when the list has no line there: Python's
      `IndexError` at `temp_str[pos]`. */
  datatype RepairError = MissingLine(pos: nat)

  type Outcome = Result<seq<string>, RepairError>

  /** Puts `done` in front of a successful outcome; an error passes through. */
  function PrependAll(done: seq<string>, r: Outcome): Outcome {
    match r
    case Ok(t) => Ok(done + t)
    case Err(e) => Err(e)
  }

  /** Fills slots `pos`, `pos + 1`, ... of the schema from `rest`, the lines not yet
      placed. An accepted line is consumed; a missing field gets its placeholder and
      `rest` waits for the next slot. Once every slot is filled, the remaining lines
      follow unchanged. The fill only fails by running out of lines: with a line
      for every remaining slot it succeeds, and a failure names a slot past the
      lines it was given. A success never loses a line. */
  function Fill(keys: seq<string>, rest: seq<string>, pos: nat): (r: Outcome)
    requires pos <= |keys|
    ensures |rest| >= |keys| - pos ==> r.Ok?
    ensures r.Err? ==> pos + |rest| <= r.error.pos < |keys|
    ensures r.Ok? ==> |r.value| >= |rest| && |r.value| >= |keys| - pos
    decreases |keys| - pos
  {
    if pos == |keys| then Ok(rest)
    else if |rest| == 0 then Err(MissingLine(pos))
    else if StartsWith(rest[0], keys[pos]) then PrependAll([rest[0]], Fill(keys, rest[1..], pos + 1))
    else PrependAll([keys[pos] + ": "], Fill(keys, rest, pos + 1))
  }

  /** The repaired line list of a message, or the `IndexError` the source raises:
      with at least 17 lines it succeeds, a failure names a slot past the original
      lines, and a success has every slot starting with its field name. */
  function Repair(lines: seq<string>): (r: Outcome)
    ensures |lines| >= |Keys| ==> r.Ok?
    ensures r.Err? ==> |lines| <= r.error.pos < |Keys|
    ensures r.Ok? ==> Aligned(r.value) && |r.value| >= |lines|
  {
    var r := Fill(Keys, lines, 0);
    if r.Ok? then
      FillSlots(Keys, lines, 0);
      assert forall pos :: 0 <= pos < |Keys| ==> Keys[0 + pos] == Keys[pos];
      r
    else r
  }

  /** Which of the slots `pos`, `pos + 1`, ... receive a synthetic line. */
  function Synthetic(keys: seq<string>, rest: seq<string>, pos: nat): seq<bool>
    requires pos <= |keys|
    decreases |keys| - pos
  {
    if pos == |keys| || |rest| == 0 then []
    else if StartsWith(rest[0], keys[pos]) then [false] + Synthetic(keys, rest[1..], pos + 1)
    else [true] + Synthetic(keys, rest, pos + 1)
  }

  function CountTrue(m: seq<bool>): (n: nat)
    ensures n <= |m|
  {
    if |m| == 0 then 0 else (if m[0] then 1 else 0) + CountTrue(m[1..])
  }

  /** The lines of `xs` at the positions the mask does not mark. */
  function Kept(xs: seq<string>, m: seq<bool>): seq<string>
    requires |xs| == |m|
  {
    if |xs| == 0 then [] else (if m[0] then [] else [xs[0]]) + Kept(xs[1..], m[1..])
  }

  /** Every slot holds a line starting with its field name. */
  predicate AlignedTo(keys: seq<string>, lines: seq<string>) {
    |lines| >= |keys| && forall pos :: 0 <= pos < |keys| ==> StartsWith(lines[pos], keys[pos])
  }

  predicate Aligned(lines: seq<string>) {
    AlignedTo(Keys, lines)
  }

  lemma TakeDrop(xs: seq<string>, n: nat)
    requires n <= |xs|
    ensures xs[..n] + xs[n..] == xs
  {
  }

  lemma PrependEmpty(r: Outcome)
    ensures PrependAll([], r) == r
  {
    if r.Ok? {
      assert [] + r.value == r.value;
    }
  }

  lemma PrependTwice(a: seq<string>, b: seq<string>, r: Outcome)
    ensures PrependAll(a, PrependAll(b, r)) == PrependAll(a + b, r)
  {
    if r.Ok? {
      assert a + (b + r.value) == (a + b) + r.value;
    }
  }

  /** How many lines a successful fill from slot `pos` adds and consumes. */
  lemma {:induction false} FillLength(keys: seq<string>, rest: seq<string>, pos: nat)
    requires pos <= |keys| && Fill(keys, rest, pos).Ok?
    ensures var m := Synthetic(keys, rest, pos);
      && |m| == |keys| - pos
      && |keys| - pos - CountTrue(m) <= |rest|
      && |Fill(keys, rest, pos).value| == |rest| + CountTrue(m)
    decreases |keys| - pos
  {
    if pos < |keys| {
      if StartsWith(rest[0], keys[pos]) {
        FillLength(keys, rest[1..], pos + 1);
      } else {
        FillLength(keys, rest, pos + 1);
      }
    }
  }

  /** One slot of a successful fill: the slot's line (the next line when it fits,
      its placeholder otherwise) followed by the fill of the later slots. */
  lemma FillStep(keys: seq<string>, rest: seq<string>, pos: nat)
    requires pos < |keys| && Fill(keys, rest, pos).Ok?
    ensures |rest| > 0
    ensures var accept := StartsWith(rest[0], keys[pos]);
      var rest' := if accept then rest[1..] else rest;
      var head := if accept then rest[0] else keys[pos] + ": ";
      && Fill(keys, rest', pos + 1).Ok?
      && Fill(keys, rest, pos).value == [head] + Fill(keys, rest', pos + 1).value
      && Synthetic(keys, rest, pos) == [!accept] + Synthetic(keys, rest', pos + 1)
  {
  }

  /** After a successful fill every slot starts with its field name, and the slots
      the mask marks hold exactly their placeholders. */
  lemma {:induction false} FillSlots(keys: seq<string>, rest: seq<string>, pos: nat)
    requires pos <= |keys| && Fill(keys, rest, pos).Ok?
    ensures var r := Fill(keys, rest, pos).value;
      var m := Synthetic(keys, rest, pos);
      && |r| >= |keys| - pos && |m| == |keys| - pos
      && (forall q :: 0 <= q < |keys| - pos ==> StartsWith(r[q], keys[pos + q]))
      && (forall q :: 0 <= q < |keys| - pos && m[q] ==> r[q] == keys[pos + q] + ": ")
    decreases |keys| - pos
  {
    FillLength(keys, rest, pos);
    if pos < |keys| {
      var r := Fill(keys, rest, pos).value;
      var m := Synthetic(keys, rest, pos);
      var accept := StartsWith(rest[0], keys[pos]);
      var rest' := if accept then rest[1..] else rest;
      var head := if accept then rest[0] else keys[pos] + ": ";
      FillStep(keys, rest, pos);
      FillSlots(keys, rest', pos + 1);
      var r' := Fill(keys, rest', pos + 1).value;
      var m' := Synthetic(keys, rest', pos + 1);
      assert StartsWith(head, keys[pos]) by {
        if !accept {
          assert head[..|keys[pos]|] == keys[pos];
        }
      }
      SlotsCons(keys, pos, head, !accept, r', m');
    }
  }

  /** Slot facts for the slots after `pos` extend to slot `pos` when its line
      starts with its field name (and is the placeholder when marked). */
  lemma SlotsCons(keys: seq<string>, pos: nat, head: string, mark: bool, r': seq<string>, m': seq<bool>)
    requires pos < |keys| && |r'| >= |keys| - (pos + 1) && |m'| == |keys| - (pos + 1)
    requires forall q :: 0 <= q < |keys| - (pos + 1) ==> StartsWith(r'[q], keys[pos + 1 + q])
    requires forall q :: 0 <= q < |keys| - (pos + 1) && m'[q] ==> r'[q] == keys[pos + 1 + q] + ": "
    requires StartsWith(head, keys[pos]) && (mark ==> head == keys[pos] + ": ")
    ensures var r := [head] + r';
      var m := [mark] + m';
      && |r| >= |keys| - pos && |m| == |keys| - pos
      && (forall q :: 0 <= q < |keys| - pos ==> StartsWith(r[q], keys[pos + q]))
      && (forall q :: 0 <= q < |keys| - pos && m[q] ==> r[q] == keys[pos + q] + ": ")
  {
    var r := [head] + r';
    var m := [mark] + m';
    forall q | 1 <= q < |keys| - pos
      ensures StartsWith(r[q], keys[pos + q])
      ensures m[q] ==> r[q] == keys[pos + q] + ": "
    {
      assert r[q] == r'[q - 1] && m[q] == m'[q - 1];
      assert keys[pos + q] == keys[pos + 1 + (q - 1)];
    }
  }

  /** The first `j` lines are the first line and the next `j - 1`. */
  lemma ConsTake(xs: seq<string>, j: nat)
    requires 1 <= j <= |xs|
    ensures xs[..j] == [xs[0]] + xs[1..][..j - 1]
  {
  }

  /** Cutting a list with one line in front at `n` cuts its tail at `n - 1`. */
  lemma ConsSlices(h: string, t: seq<string>, n: nat)
    requires 1 <= n <= 1 + |t|
    ensures ([h] + t)[..n][1..] == t[..n - 1]
    ensures ([h] + t)[n..] == t[n - 1..]
  {
    assert forall i :: 0 <= i < n - 1 ==> ([h] + t)[..n][1..][i] == t[i];
  }

  /** Marking one more slot in front counts one more mark exactly when it is set. */
  lemma CountCons(mark: bool, m': seq<bool>)
    ensures CountTrue([mark] + m') == CountTrue(m') + (if mark then 1 else 0)
  {
    assert ([mark] + m')[1..] == m';
  }

  /** The tail fact for the slots after one slot extends to that slot, whether it
      consumed a line (`rest' == rest[1..]`) or got a placeholder (`rest' == rest`). */
  lemma TailCons(head: string, mark: bool, r': seq<string>, m': seq<bool>,
                 rest: seq<string>, rest': seq<string>, n: nat)
    requires 1 <= n && |m'| == n - 1 && n - 1 - CountTrue(m') <= |rest'| && n - 1 <= |r'|
    requires r'[n - 1..] == rest'[n - 1 - CountTrue(m')..]
    requires if mark then rest' == rest else |rest| > 0 && rest' == rest[1..]
    ensures var r := [head] + r';
      var k := CountTrue([mark] + m');
      n - k <= |rest| && n <= |r| && r[n..] == rest[n - k..]
  {
    CountCons(mark, m');
    ConsSlices(head, r', n);
  }

  /** The kept-lines fact for the slots after one slot extends to that slot; a slot
      that consumed a line holds it as `head`. */
  lemma KeptCons(head: string, mark: bool, r': seq<string>, m': seq<bool>,
                 rest: seq<string>, rest': seq<string>, n: nat)
    requires 1 <= n && |m'| == n - 1 && n - 1 - CountTrue(m') <= |rest'| && n - 1 <= |r'|
    requires Kept(r'[..n - 1], m') == rest'[..n - 1 - CountTrue(m')]
    requires if mark then rest' == rest else |rest| > 0 && rest' == rest[1..] && head == rest[0]
    ensures var r := [head] + r';
      var m := [mark] + m';
      var k := CountTrue(m);
      n - k <= |rest| && n <= |r| && Kept(r[..n], m) == rest[..n - k]
  {
    var r := [head] + r';
    var m := [mark] + m';
    var k' := CountTrue(m');
    CountCons(mark, m');
    ConsSlices(head, r', n);
    assert m[1..] == m';
    assert Kept(r[..n], m) == (if mark then [] else [head]) + Kept(r'[..n - 1], m');
    if !mark {
      ConsTake(rest, n - k');
    }
  }

  /** After a successful fill the lines after the slots are the lines of `rest` the
      slots did not take. */
  lemma {:induction false} FillTail(keys: seq<string>, rest: seq<string>, pos: nat)
    requires pos <= |keys| && Fill(keys, rest, pos).Ok?
    ensures var r := Fill(keys, rest, pos).value;
      var n := |keys| - pos;
      var m := Synthetic(keys, rest, pos);
      var k := CountTrue(m);
      |m| == n && n - k <= |rest| && n <= |r| && r[n..] == rest[n - k..]
    decreases |keys| - pos
  {
    FillLength(keys, rest, pos);
    if pos < |keys| {
      var r := Fill(keys, rest, pos).value;
      var m := Synthetic(keys, rest, pos);
      var n := |keys| - pos;
      var accept := StartsWith(rest[0], keys[pos]);
      var rest' := if accept then rest[1..] else rest;
      var head := if accept then rest[0] else keys[pos] + ": ";
      FillStep(keys, rest, pos);
      FillTail(keys, rest', pos + 1);
      TailCons(head, !accept, Fill(keys, rest', pos + 1).value, Synthetic(keys, rest', pos + 1), rest, rest', |keys| - pos);
    } else {
      assert Fill(keys, rest, pos).value == rest;
    }
  }

  /** After a successful fill the unmarked slots hold the first lines of `rest` in
      order. */
  lemma {:induction false} FillKept(keys: seq<string>, rest: seq<string>, pos: nat)
    requires pos <= |keys| && Fill(keys, rest, pos).Ok?
    ensures var r := Fill(keys, rest, pos).value;
      var m := Synthetic(keys, rest, pos);
      var n := |keys| - pos;
      var k := CountTrue(m);
      && |m| == n && n - k <= |rest| && n <= |r|
      && Kept(r[..n], m) == rest[..n - k]
    decreases |keys| - pos
  {
    FillLength(keys, rest, pos);
    if pos < |keys| {
      var r := Fill(keys, rest, pos).value;
      var m := Synthetic(keys, rest, pos);
      var n := |keys| - pos;
      var accept := StartsWith(rest[0], keys[pos]);
      var rest' := if accept then rest[1..] else rest;
      var head := if accept then rest[0] else keys[pos] + ": ";
      FillStep(keys, rest, pos);
      FillKept(keys, rest', pos + 1);
      KeptCons(head, !accept, Fill(keys, rest', pos + 1).value, Synthetic(keys, rest', pos + 1), rest, rest', |keys| - pos);
    } else {
      assert Synthetic(keys, rest, pos) == [];
    }
  }

  /** After a successful fill the unmarked slots hold the first lines of `rest` in
      order, and the lines after the slots are the remaining lines of `rest`. */
  lemma FillKeeps(keys: seq<string>, rest: seq<string>, pos: nat)
    requires pos <= |keys| && Fill(keys, rest, pos).Ok?
    ensures var r := Fill(keys, rest, pos).value;
      var m := Synthetic(keys, rest, pos);
      var n := |keys| - pos;
      var k := CountTrue(m);
      && |m| == n && n - k <= |rest| && n <= |r|
      && Kept(r[..n], m) == rest[..n - k]
      && r[n..] == rest[n - k..]
  {
    FillKept(keys, rest, pos);
    FillTail(keys, rest, pos);
  }

  /** The repair pass as a whole (main.py:152-154): on success the first 17 lines are
      the header slots, each starting with its field name; a slot either holds its
      placeholder `name: ` or the next original line, and the original lines keep
      their order; with `k` insertions the lines after the slots are exactly
      `lines[17 - k..]`. */
  lemma RepairShape(lines: seq<string>)
    requires Repair(lines).Ok?
    ensures var r := Repair(lines).value;
      var m := Synthetic(Keys, lines, 0);
      var k := CountTrue(m);
      && Aligned(r)
      && |m| == |Keys| && |Keys| - k <= |lines|
      && |r| == |lines| + k
      && (forall pos :: 0 <= pos < |Keys| && m[pos] ==> r[pos] == Placeholder(pos))
      && Kept(r[..|Keys|], m) == lines[..|Keys| - k]
      && r[|Keys|..] == lines[|Keys| - k..]
  {
    FillShapeSlots(Keys, lines);
    FillShapeLines(Keys, lines);
  }

  /** The slot half of `RepairShape`, for any list of names. */
  lemma FillShapeSlots(keys: seq<string>, lines: seq<string>)
    requires Fill(keys, lines, 0).Ok?
    ensures var r := Fill(keys, lines, 0).value;
      var m := Synthetic(keys, lines, 0);
      && AlignedTo(keys, r) && |m| == |keys|
      && (forall pos :: 0 <= pos < |keys| && m[pos] ==> r[pos] == keys[pos] + ": ")
  {
    var r := Fill(keys, lines, 0).value;
    var m := Synthetic(keys, lines, 0);
    FillSlots(keys, lines, 0);
    assert forall pos :: 0 <= pos < |keys| ==> StartsWith(r[pos], keys[0 + pos]);
    assert forall pos :: 0 <= pos < |keys| && m[pos] ==> r[pos] == keys[0 + pos] + ": ";
  }

  /** The line half of `RepairShape`, for any list of names. */
  lemma FillShapeLines(keys: seq<string>, lines: seq<string>)
    requires Fill(keys, lines, 0).Ok?
    ensures var r := Fill(keys, lines, 0).value;
      var m := Synthetic(keys, lines, 0);
      var k := CountTrue(m);
      && |m| == |keys| && |keys| - k <= |lines|
      && |r| == |lines| + k
      && Kept(r[..|keys|], m) == lines[..|keys| - k]
      && r[|keys|..] == lines[|keys| - k..]
  {
    FillLength(keys, lines, 0);
    FillKeeps(keys, lines, 0);
  }

  lemma {:induction false} FillAligned(keys: seq<string>, rest: seq<string>, pos: nat)
    requires pos <= |keys| && |rest| >= |keys| - pos
    requires forall q :: 0 <= q < |keys| - pos ==> StartsWith(rest[q], keys[pos + q])
    ensures Fill(keys, rest, pos) == Ok(rest)
    decreases |keys| - pos
  {
    if pos < |keys| {
      assert StartsWith(rest[0], keys[pos]);
      assert forall q :: 0 <= q < |keys| - pos - 1 ==> rest[1..][q] == rest[q + 1];
      FillAligned(keys, rest[1..], pos + 1);
      assert rest == [rest[0]] + rest[1..];
    }
  }

  /** A message whose slots already all start with their field names is left as it
      is. */
  lemma RepairAligned(lines: seq<string>)
    requires Aligned(lines)
    ensures Repair(lines) == Ok(lines)
  {
    FillAligned(Keys, lines, 0);
  }

  /** Running the repair on its own output changes nothing. */
  lemma RepairIdempotent(lines: seq<string>)
    requires Repair(lines).Ok?
    ensures Repair(Repair(lines).value) == Repair(lines)
  {
    RepairShape(lines);
    RepairAligned(Repair(lines).value);
  }

  /** Slots whose lines already fit are taken over one by one: the first `j` lines
      of `rest` go through unchanged and the fill carries on from slot `pos + j`. */
  lemma {:induction false} FillPrefix(keys: seq<string>, rest: seq<string>, pos: nat, j: nat)
    requires pos + j <= |keys| && j <= |rest|
    requires forall q :: 0 <= q < j ==> StartsWith(rest[q], keys[pos + q])
    ensures Fill(keys, rest, pos) == PrependAll(rest[..j], Fill(keys, rest[j..], pos + j))
    decreases j
  {
    if j == 0 {
      assert rest[..0] == [] && rest[0..] == rest;
      PrependEmpty(Fill(keys, rest, pos));
    } else {
      var tail := rest[1..];
      assert StartsWith(rest[0], keys[pos]);
      assert forall q :: 0 <= q < j - 1 ==> tail[q] == rest[q + 1];
      FillPrefix(keys, tail, pos + 1, j - 1);
      assert tail[j - 1..] == rest[j..];
      assert [rest[0]] + tail[..j - 1] == rest[..j];
      PrependTwice([rest[0]], tail[..j - 1], Fill(keys, rest[j..], pos + j));
    }
  }

  /** The line at slot `k` of a message whose slots all fit cannot fill slot `k - 1`:
      no line starts with two field names. */
  lemma NextSlotRefuses(lines: seq<string>, k: nat)
    requires Aligned(lines) && k + 1 < |Keys|
    ensures !StartsWith(lines[k + 1], Keys[k])
  {
    if StartsWith(lines[k + 1], Keys[k]) {
      OneNamePerLine(k, k + 1, lines[k + 1]);
    }
  }

  /** Up to the deleted line, the shortened list is taken over unchanged. */
  lemma FillBeforeGap(keys: seq<string>, lines: seq<string>, k: nat)
    requires AlignedTo(keys, lines) && k < |keys|
    ensures Fill(keys, lines[..k] + lines[k + 1..], 0) == PrependAll(lines[..k], Fill(keys, lines[k + 1..], k))
  {
    var short := lines[..k] + lines[k + 1..];
    assert short[..k] == lines[..k] && short[k..] == lines[k + 1..];
    assert forall q :: 0 <= q < k ==> short[q] == lines[q];
    FillPrefix(keys, short, 0, k);
  }

  /** At the gap, the slot gets its placeholder and the rest fits. */
  lemma FillAtGap(keys: seq<string>, lines: seq<string>, k: nat)
    requires AlignedTo(keys, lines) && k < |keys| && k + 1 < |lines|
    requires !StartsWith(lines[k + 1], keys[k])
    ensures Fill(keys, lines[k + 1..], k) == Ok([keys[k] + ": "] + lines[k + 1..])
  {
    var after := lines[k + 1..];
    assert after[0] == lines[k + 1];
    assert forall q :: 0 <= q < |keys| - (k + 1) ==> after[q] == lines[k + 1 + q];
    FillAligned(keys, after, k + 1);
  }

  /** The general form of `RepairDropsField`, for any list of names: when a line
      follows the deleted one and does not fit the deleted slot, that slot gets its
      placeholder and everything else stays. */
  lemma FillDropsOne(keys: seq<string>, lines: seq<string>, k: nat)
    requires AlignedTo(keys, lines) && k < |keys| && k + 1 < |lines|
    requires !StartsWith(lines[k + 1], keys[k])
    ensures Fill(keys, lines[..k] + lines[k + 1..], 0) == Ok(lines[..k] + [keys[k] + ": "] + lines[k + 1..])
  {
    FillBeforeGap(keys, lines, k);
    FillAtGap(keys, lines, k);
    GapJoin(lines[..k], keys[k] + ": ", lines[k + 1..]);
  }

  /** The lines before a gap, put in front of the filled gap and the lines after it. */
  lemma GapJoin(before: seq<string>, line: string, after: seq<string>)
    ensures PrependAll(before, Ok([line] + after)) == Ok(before + [line] + after)
  {
    assert before + ([line] + after) == before + [line] + after;
  }

  /** Deleting the header line of slot `k` from a message whose slots all fit gives
      back the message with that line replaced by its placeholder `name: `; the line
      itself, and what it held, is lost. For any slot but the last the next header
      line never fits the deleted slot; for the last slot (the file name) this needs
      a first body line that does not start with `X-FileName`. */
  lemma RepairDropsField(lines: seq<string>, k: nat)
    requires Aligned(lines) && k < |Keys| && k + 1 < |lines|
    requires k + 1 < |Keys| || !StartsWith(lines[k + 1], Keys[k])
    ensures Repair(lines[..k] + lines[k + 1..]) == Ok(lines[..k] + [Placeholder(k)] + lines[k + 1..])
  {
    if k + 1 < |Keys| {
      NextSlotRefuses(lines, k);
    }
    FillDropsOne(Keys, lines, k);
  }

  /** Deleting the last header line (the file name, slot 16) of a message that has
      nothing after its headers leaves a line too few: the repair reads past the end
      and fails at that slot. */
  lemma RepairDropsLast(lines: seq<string>)
    requires Aligned(lines) && |lines| == |Keys|
    ensures Repair(lines[..|Keys| - 1]) == Err(MissingLine(|Keys| - 1))
  {
    var short := lines[..|Keys| - 1];
    FillPrefix(Keys, short, 0, |Keys| - 1);
    assert short[|Keys| - 1..] == [];
  }

  /** The loop's invariant: the slots before `pos` are final, and filling the rest
      from `pos` on completes the repair. */
  predicate Pending(lines: seq<string>, cur: seq<string>, pos: nat) {
    pos <= |Keys| && pos <= |cur| && Repair(lines) == PrependAll(cur[..pos], Fill(Keys, cur[pos..], pos))
  }

  /** Inserting the placeholder at a slot whose line does not fit keeps the invariant. */
  lemma InsertStep(lines: seq<string>, cur: seq<string>, next: seq<string>, pos: nat)
    requires Pending(lines, cur, pos) && pos < |Keys| && pos < |cur|
    requires !StartsWith(cur[pos], Keys[pos])
    requires next == cur[..pos] + [Placeholder(pos)] + cur[pos..]
    ensures Pending(lines, next, pos + 1)
  {
    assert next[..pos + 1] == cur[..pos] + [Placeholder(pos)];
    assert next[pos + 1..] == cur[pos..];
    PrependTwice(cur[..pos], [Placeholder(pos)], Fill(Keys, next[pos + 1..], pos + 1));
  }

  /** Moving past a slot whose line fits keeps the invariant. */
  lemma AcceptStep(lines: seq<string>, cur: seq<string>, pos: nat)
    requires Pending(lines, cur, pos) && pos < |Keys| && pos < |cur|
    requires StartsWith(cur[pos], Keys[pos])
    ensures Pending(lines, cur, pos + 1)
  {
    assert cur[pos..][1..] == cur[pos + 1..];
    assert cur[..pos] + [cur[pos]] == cur[..pos + 1];
    PrependTwice(cur[..pos], [cur[pos]], Fill(Keys, cur[pos + 1..], pos + 1));
  }

  /** The source's loop (main.py:152-154), inserting into the line list in place. The
      invariant says that the slots before `pos` are final: later insertions happen at
      or after `pos` and never shift them. */
  method RepairInPlace(lines: seq<string>) returns (res: Outcome)
    ensures res == Repair(lines)
    ensures res.Ok? ==> Aligned(res.value)
    ensures res.Err? ==> |lines| <= res.error.pos < |Keys|
  {
    var cur := lines;
    var pos := 0;
    assert cur[..pos] == [] && cur[pos..] == cur;
    PrependEmpty(Repair(lines));
    while pos < |Keys|
      invariant Pending(lines, cur, pos)
    {
      if pos == |cur| {
        return Err(MissingLine(pos));
      }
      var name := KeysDict()[pos].name;
      var n := |name|;
      var head := if n <= |cur[pos]| then cur[pos][..n] else cur[pos];
      assert name == Keys[pos] && (head == name <==> StartsWith(cur[pos], Keys[pos]));
      if head != name {
        ghost var prev := cur;
        cur := cur[..pos] + [name + ": "] + cur[pos..];
        InsertStep(lines, prev, cur, pos);
      } else {
        AcceptStep(lines, cur, pos);
      }
      pos := pos + 1;
    }
    assert Fill(Keys, cur[pos..], pos) == Ok(cur[pos..]);
    TakeDrop(cur, pos);
    return Ok(cur);
  }
}
