/** The sliding window of one sensor as a function of everything that was measured. */
module Windows {
  /** datamgr.h's default; every statement below uses only that it is positive. */
  const RUN_AVG_LENGTH: nat := 5

  newtype U16 = x: int | 0 <= x < 0x1_0000

  /** sensor_data_t; temperatures are real numbers here. */
  datatype Reading = Reading(id: U16, value: real, ts: int)

  /** The readings of one sensor, in order. */
  function Of(h: seq<Reading>, id: U16): seq<Reading> {
    if h == [] then []
    else Of(h[..|h| - 1], id) + (if h[|h| - 1].id == id then [h[|h| - 1]] else [])
  }

  /** The last RUN_AVG_LENGTH values, newest first, padded with 0.0. */
  function Window(rs: seq<Reading>): (w: seq<real>)
    ensures |w| == RUN_AVG_LENGTH
  {
    seq(RUN_AVG_LENGTH, k requires 0 <= k => if k < |rs| then rs[|rs| - 1 - k].value else 0.0)
  }

  function Sum(s: seq<real>): real {
    if s == [] then 0.0 else Sum(s[..|s| - 1]) + s[|s| - 1]
  }

  function Average(w: seq<real>): real {
    Sum(w) / RUN_AVG_LENGTH as real
  }

  /** The window after one more reading: everything moves one slot up, the last slot falls out. */
  function Shifted(w: seq<real>, v: real): seq<real>
    requires w != []
  {
    [v] + w[..|w| - 1]
  }

  lemma OfAppend(h: seq<Reading>, r: Reading, id: U16)
    ensures Of(h + [r], id) == Of(h, id) + (if r.id == id then [r] else [])
  {
    assert (h + [r])[..|h + [r]| - 1] == h;
  }

  lemma {:induction false} OfConcat(h: seq<Reading>, t: seq<Reading>, id: U16)
    ensures Of(h + t, id) == Of(h, id) + Of(t, id)
  {
    if t == [] {
      assert h + t == h;
    } else {
      var n := |t| - 1;
      assert h + t == (h + t[..n]) + [t[n]];
      OfConcat(h, t[..n], id);
      OfAppend(h + t[..n], t[n], id);
      assert t == t[..n] + [t[n]];
    }
  }

  /** Shifting the stored window is the same as recomputing it from the longer history. */
  lemma WindowStep(rs: seq<Reading>, r: Reading)
    ensures Window(rs + [r]) == Shifted(Window(rs), r.value)
  {
    var a, b := Window(rs + [r]), Shifted(Window(rs), r.value);
    forall k | 0 <= k < RUN_AVG_LENGTH ensures a[k] == b[k] {
      if k > 0 {
        assert b[k] == Window(rs)[k - 1];
      }
    }
  }

  lemma {:induction false} SumPrepend(v: real, s: seq<real>)
    ensures Sum([v] + s) == v + Sum(s)
  {
    if s == [] {
      assert [v] + s == [v] && [v][..0] == [];
    } else {
      var n := |s| - 1;
      SumPrepend(v, s[..n]);
      assert ([v] + s)[..|[v] + s| - 1] == [v] + s[..n];
    }
  }

  /** An update moves the average by (new reading - evicted slot) / RUN_AVG_LENGTH. */
  lemma AverageStep(w: seq<real>, v: real)
    requires |w| == RUN_AVG_LENGTH
    ensures Average(Shifted(w, v)) == Average(w) + (v - w[|w| - 1]) / RUN_AVG_LENGTH as real
  {
    SumPrepend(v, w[..|w| - 1]);
  }

  lemma {:induction false} SumBounds(s: seq<real>, lo: real, hi: real)
    requires forall k :: 0 <= k < |s| ==> lo <= s[k] <= hi
    ensures |s| as real * lo <= Sum(s) <= |s| as real * hi
  {
    if s != [] {
      var n := |s| - 1;
      SumBounds(s[..n], lo, hi);
      assert |s| as real * lo == n as real * lo + lo;
      assert |s| as real * hi == n as real * hi + hi;
    }
  }

  /** The average lies between any bounds on the last RUN_AVG_LENGTH readings; while fewer have
      arrived the bounds must also admit the padding 0.0. */
  lemma AverageBetween(rs: seq<Reading>, lo: real, hi: real)
    requires forall i :: 0 <= i < |rs| && i >= |rs| - RUN_AVG_LENGTH ==> lo <= rs[i].value <= hi
    requires |rs| < RUN_AVG_LENGTH ==> lo <= 0.0 <= hi
    ensures lo <= Average(Window(rs)) <= hi
  {
    var w := Window(rs);
    forall k | 0 <= k < |w| ensures lo <= w[k] <= hi {
      assert w[k] == if k < |rs| then rs[|rs| - 1 - k].value else 0.0;
    }
    SumBounds(w, lo, hi);
  }

  function Total(rs: seq<Reading>): real {
    if rs == [] then 0.0 else Total(rs[..|rs| - 1]) + rs[|rs| - 1].value
  }

  /** Before the window is full the average is the total of the readings over RUN_AVG_LENGTH, so it is 0.0,
      as datamgr.h announces, exactly when the readings happen to cancel. */
  lemma {:induction false} EarlyAverage(rs: seq<Reading>)
    requires |rs| <= RUN_AVG_LENGTH
    ensures Sum(Window(rs)) == Total(rs)
    ensures Average(Window(rs)) == 0.0 <==> Total(rs) == 0.0
  {
    if rs == [] {
      SumBounds(Window(rs), 0.0, 0.0);
    } else {
      var n := |rs| - 1;
      EarlyAverage(rs[..n]);
      assert rs == rs[..n] + [rs[n]];
      WindowStep(rs[..n], rs[n]);
      var w := Window(rs[..n]);
      assert w[|w| - 1] == 0.0;
      SumPrepend(rs[n].value, w[..|w| - 1]);
    }
  }

  /** A single reading of 20 degrees already gives an average of 4, not 0. */
  lemma EarlyAverageWitness()
    ensures Average(Window([Reading(15, 20.0, 1)])) == 4.0
  {
    var r := Reading(15, 20.0, 1);
    EarlyAverage([r]);
    assert [r][..0] == [];
    assert Total([r]) == 20.0;
  }

  /** The latest RUN_AVG_LENGTH readings, or all of them while there are fewer. */
  function Recent(rs: seq<Reading>): seq<Reading> {
    if |rs| > RUN_AVG_LENGTH then rs[|rs| - RUN_AVG_LENGTH..] else rs
  }

  /** However many readings arrived, the slots of the window add up to the latest of them. */
  lemma WindowTotal(rs: seq<Reading>)
    ensures Sum(Window(rs)) == Total(Recent(rs))
  {
    assert Window(rs) == Window(Recent(rs));
    EarlyAverage(Recent(rs));
  }

  // ---- what the whole table shows

  datatype View = View(id: U16, room: U16, avg: real, last: int, temps: seq<real>)

  datatype Record = Record(id: U16, room: int)

  /** The first record with this id, or -1. */
  function FirstRecord(records: seq<Record>, id: U16): (r: int)
    ensures -1 <= r < |records|
    ensures r >= 0 ==> records[r].id == id
    ensures forall j :: 0 <= j < (if r >= 0 then r else |records|) ==> records[j].id != id
  {
    if records == [] then -1
    else
      var n := |records| - 1;
      var r := FirstRecord(records[..n], id);
      assert forall j :: 0 <= j < n ==> records[j] == records[..n][j];
      if r >= 0 then r else if records[n].id == id then n else -1
  }

  /** room_id is an int in the file and a uint16_t in the table. */
  function Truncated(room: int): U16 {
    (room % 0x1_0000) as U16
  }

  /** The readings that reach entry `i`: those of its id, unless an earlier entry has the same id. */
  function Received(records: seq<Record>, i: nat, h: seq<Reading>): seq<Reading>
    requires i < |records|
  {
    if FirstRecord(records, records[i].id) == i then Of(h, records[i].id) else []
  }

  /** Entry `i` after the readings `h`. */
  function EntryAfter(records: seq<Record>, i: nat, h: seq<Reading>): View
    requires i < |records|
  {
    var rs := Received(records, i, h);
    View(records[i].id, Truncated(records[i].room), Average(Window(rs)),
         if rs == [] then 0 else rs[|rs| - 1].ts, Window(rs))
  }

  /** What each of the three queries answers after the readings `h`. */
  function RoomAnswer(records: seq<Record>, id: U16): U16 {
    var i := FirstRecord(records, id);
    if i < 0 then 0xFFFF else Truncated(records[i].room)
  }

  function AvgAnswer(records: seq<Record>, id: U16, h: seq<Reading>): real {
    var i := FirstRecord(records, id);
    if i < 0 then 0.0 else EntryAfter(records, i, h).avg
  }

  function LastAnswer(records: seq<Record>, id: U16, h: seq<Reading>): int {
    var i := FirstRecord(records, id);
    if i < 0 then 0 else EntryAfter(records, i, h).last
  }

  // ---- the same in plain terms: the map file and the readings alone

  ghost predicate Known(records: seq<Record>, id: U16) {
    exists i :: 0 <= i < |records| && records[i].id == id
  }

  ghost predicate IsFirst(records: seq<Record>, i: nat) {
    i < |records| && forall j :: 0 <= j < i ==> records[j].id != records[i].id
  }

  /** `room` is the room that the map names for `id`: the first one, cut to 16 bits; 65535 if there is none. */
  ghost predicate IsRoom(records: seq<Record>, id: U16, room: U16) {
    && (!Known(records, id) ==> room == 65535)
    && (forall i {:trigger records[i]} :: 0 <= i < |records| && IsFirst(records, i) && records[i].id == id ==>
          room as int == records[i].room % 65536)
  }

  /** `avg` is the total of the latest RUN_AVG_LENGTH readings of `id` over RUN_AVG_LENGTH; 0.0 for an unknown id. */
  ghost predicate IsAverage(records: seq<Record>, id: U16, h: seq<Reading>, avg: real) {
    && (!Known(records, id) ==> avg == 0.0)
    && (Known(records, id) ==> avg * RUN_AVG_LENGTH as real == Total(Recent(Of(h, id))))
  }

  /** `last` is the time of the latest reading of `id`; 0 if there is none or the id is unknown. */
  ghost predicate IsLatest(records: seq<Record>, id: U16, h: seq<Reading>, last: int) {
    var rs := Of(h, id);
    last == if Known(records, id) && rs != [] then rs[|rs| - 1].ts else 0
  }

  /** `v` shows what record `i` and the readings `h` say: slot k holds the value of the k-th latest reading of the
      id, 0.0 where there is none, average and time are those of these readings; an entry that repeats an
      earlier id shows no readings. */
  ghost predicate Describes(records: seq<Record>, i: nat, h: seq<Reading>, v: View)
    requires i < |records|
  {
    var rs := if IsFirst(records, i) then Of(h, records[i].id) else [];
    && v.id == records[i].id && v.room as int == records[i].room % 65536
    && |v.temps| == RUN_AVG_LENGTH
    && (forall k :: 0 <= k < RUN_AVG_LENGTH ==> v.temps[k] == if k < |rs| then rs[|rs| - 1 - k].value else 0.0)
    && v.last == (if rs == [] then 0 else rs[|rs| - 1].ts)
    && v.avg * RUN_AVG_LENGTH as real == Total(Recent(rs))
  }

  lemma FirstIsFirst(records: seq<Record>, i: nat)
    requires i < |records|
    ensures IsFirst(records, i) <==> FirstRecord(records, records[i].id) == i
  {
  }

  lemma EntryDescribed(records: seq<Record>, i: nat, h: seq<Reading>)
    requires i < |records|
    ensures Describes(records, i, h, EntryAfter(records, i, h))
  {
    hide FirstRecord, Of, Sum, Total, Recent;
    FirstIsFirst(records, i);
    WindowTotal(Received(records, i, h));
  }

  lemma KnownIffFirst(records: seq<Record>, id: U16)
    ensures Known(records, id) <==> FirstRecord(records, id) >= 0
    ensures forall i :: 0 <= i < |records| && IsFirst(records, i) && records[i].id == id ==>
              i == FirstRecord(records, id)
    ensures FirstRecord(records, id) >= 0 ==> IsFirst(records, FirstRecord(records, id))
  {
    var r := FirstRecord(records, id);
    if r >= 0 {
      assert records[r].id == id;
    }
  }

  /** The three answers, in terms of the map file and the readings. */
  lemma AnswersSpelledOut(records: seq<Record>, id: U16, h: seq<Reading>)
    ensures IsRoom(records, id, RoomAnswer(records, id))
    ensures IsAverage(records, id, h, AvgAnswer(records, id, h))
    ensures IsLatest(records, id, h, LastAnswer(records, id, h))
  {
    hide FirstRecord, Of, Sum, Total, Recent, Known, IsFirst, Average, Window;
    KnownIffFirst(records, id);
    var i := FirstRecord(records, id);
    if i >= 0 {
      EntryDescribed(records, i, h);
    }
  }

  lemma FirstRecordUnique(records: seq<Record>, id: U16, r: int)
    requires -1 <= r < |records|
    requires r >= 0 ==> records[r].id == id
    requires forall j :: 0 <= j < (if r >= 0 then r else |records|) ==> records[j].id != id
    ensures r == FirstRecord(records, id)
  {
    var q := FirstRecord(records, id);
    assert !(q >= 0 && r >= 0 && (q < r || r < q));
  }

  lemma ReceivedStep(records: seq<Record>, i: nat, h: seq<Reading>, r: Reading)
    requires i < |records|
    ensures Received(records, i, h + [r])
            == Received(records, i, h) + (if FirstRecord(records, r.id) == i then [r] else [])
  {
    OfAppend(h, r, records[i].id);
    if FirstRecord(records, r.id) == i {
      assert records[i].id == r.id;
    }
  }

  /** One reading changes at most the first entry with its id, and changes that one by a shift. */
  lemma EntryStep(records: seq<Record>, i: nat, h: seq<Reading>, r: Reading)
    requires i < |records|
    ensures var e, f := EntryAfter(records, i, h), EntryAfter(records, i, h + [r]);
            if FirstRecord(records, r.id) == i then
              f == e.(temps := Shifted(e.temps, r.value), last := r.ts,
                      avg := Average(Shifted(e.temps, r.value)))
            else f == e
  {
    hide Received, Average, Window, FirstRecord;
    ReceivedStep(records, i, h, r);
    var rs := Received(records, i, h);
    if FirstRecord(records, r.id) == i {
      WindowStep(rs, r);
    } else {
      assert rs + [] == rs;
    }
  }

  /** With duplicate ids only the first entry ever shows anything but its initial state. */
  lemma LaterDuplicatesStayInitial(records: seq<Record>, i: nat, j: nat, h: seq<Reading>)
    requires i < j < |records| && records[i].id == records[j].id
    ensures EntryAfter(records, j, h) == EntryAfter(records, j, [])
    ensures EntryAfter(records, j, h).avg == 0.0 && EntryAfter(records, j, h).last == 0
  {
    assert FirstRecord(records, records[j].id) <= i;
    var w := Window([]);
    SumBounds(w, 0.0, 0.0);
  }

  /** Every answer about an id depends only on the readings of that id. */
  lemma AnswersDependOnOwnReadings(records: seq<Record>, id: U16, h: seq<Reading>, h': seq<Reading>)
    requires Of(h, id) == Of(h', id)
    ensures AvgAnswer(records, id, h) == AvgAnswer(records, id, h')
    ensures LastAnswer(records, id, h) == LastAnswer(records, id, h')
  {
  }

  /** Updates of different sensors commute, wherever they occur in a stream. */
  lemma UpdatesCommute(records: seq<Record>, i: nat, h: seq<Reading>, a: Reading, b: Reading, t: seq<Reading>)
    requires i < |records| && a.id != b.id
    ensures EntryAfter(records, i, h + [a, b] + t) == EntryAfter(records, i, h + [b, a] + t)
  {
    hide Of, Average, Window, FirstRecord;
    var id := records[i].id;
    OfConcat(h + [a, b], t, id);
    OfConcat(h + [b, a], t, id);
    OfPair(h, a, b, id);
    OfPair(h, b, a, id);
  }

  /** Two readings of different ids leave at most one of them in the history of an id. */
  lemma OfPair(h: seq<Reading>, a: Reading, b: Reading, id: U16)
    requires a.id != b.id
    ensures Of(h + [a, b], id) == Of(h, id) + (if a.id == id then [a] else if b.id == id then [b] else [])
  {
    hide Of;
    assert h + [a, b] == (h + [a]) + [b];
    OfAppend(h + [a], b, id);
    OfAppend(h, a, id);
  }

  /** Appending records leaves earlier lookups alone: loading keeps file order and first matches. */
  lemma AppendRecord(records: seq<Record>, r: Record, i: nat)
    requires i <= |records|
    ensures i < |records| ==> EntryAfter(records + [r], i, []) == EntryAfter(records, i, [])
    ensures EntryAfter(records + [r], |records|, [])
            == View(r.id, Truncated(r.room), Average(Window([])), 0, Window([]))
  {
    assert forall j :: 0 <= j < |records| ==> (records + [r])[j] == records[j];
  }
}
