/** datamgr.c run by one thread: the table of sensors, its loading, its updates and its queries. */
module DataMgr {
  import opened Util
  import opened Ordering
  import opened Windows
  import DL = DList

  /** sensor_t, kept behind a pointer in the list. The id never changes after creation. */
  class Sensor {
    const sensorId: U16
    var roomId: U16
    var runningAvg: real
    var lastModified: int
    const temperatures: array<real>

    /** malloc, field initialization and memset. */
    constructor (sensorId: U16, room: int)
      ensures fresh(temperatures) && temperatures.Length == RUN_AVG_LENGTH
      ensures Shows() == View(sensorId, Truncated(room), 0.0, 0, seq(RUN_AVG_LENGTH, _ => 0.0))
      ensures this.sensorId == sensorId && roomId as int == room % 65536
    {
      this.sensorId := sensorId;
      roomId := Truncated(room);
      runningAvg, lastModified := 0.0, 0;
      temperatures := new real[RUN_AVG_LENGTH](_ => 0.0);
      new;
      assert temperatures[..] == seq(RUN_AVG_LENGTH, _ => 0.0);
    }

    /** element_copy: a fresh structure with the same bytes. */
    constructor Copy(other: Sensor)
      requires other.temperatures.Length == RUN_AVG_LENGTH
      ensures fresh(temperatures) && temperatures.Length == RUN_AVG_LENGTH
      ensures Shows() == other.Shows() && sensorId == other.sensorId
    {
      sensorId, roomId := other.sensorId, other.roomId;
      runningAvg, lastModified := other.runningAvg, other.lastModified;
      temperatures := new real[RUN_AVG_LENGTH](k requires 0 <= k < RUN_AVG_LENGTH
                                                 reads other.temperatures
                                                 requires other.temperatures.Length == RUN_AVG_LENGTH =>
                                                 other.temperatures[k]);
      new;
      assert temperatures[..] == other.temperatures[..];
    }

    ghost function Shows(): View
      reads this, temperatures
    {
      View(sensorId, roomId, runningAvg, lastModified, temperatures[..])
    }

    /** The overlapping memmove of all but the last slot, one slot to the right. */
    method ShiftRight()
      requires temperatures.Length > 0
      modifies temperatures
      ensures temperatures[..] == [old(temperatures[0])] + old(temperatures[..temperatures.Length - 1])
    {
      var n := temperatures.Length;
      var i := n - 1;
      while i > 0
        invariant 0 <= i < n
        invariant forall k :: 0 <= k <= i ==> temperatures[k] == old(temperatures[k])
        invariant forall k :: i < k < n ==> temperatures[k] == old(temperatures[k - 1])
      {
        temperatures[i] := temperatures[i - 1];
        i := i - 1;
      }
    }

    /** The summing loop, lines 71 to 74. */
    method SumTemperatures() returns (sum: real)
      requires temperatures.Length == RUN_AVG_LENGTH
      ensures sum == Sum(temperatures[..])
    {
      sum := 0.0;
      for i := 0 to RUN_AVG_LENGTH
        invariant sum == Sum(temperatures[..i])
      {
        assert temperatures[..i + 1][..i] == temperatures[..i];
        sum := sum + temperatures[i];
      }
      assert temperatures[..RUN_AVG_LENGTH] == temperatures[..];
    }

    /** The body of the consuming loop once the sensor has been found. */
    method Update(r: Reading)
      requires temperatures.Length == RUN_AVG_LENGTH
      modifies this, temperatures
      ensures var w := Shifted(old(temperatures[..]), r.value);
              Shows() == old(Shows()).(last := r.ts, temps := w, avg := Average(w))
      ensures temperatures[0] == r.value
      ensures forall k :: 0 < k < RUN_AVG_LENGTH ==> temperatures[k] == old(temperatures[k - 1])
    {
      lastModified := r.ts;
      ShiftRight();
      temperatures[0] := r.value;
      assert temperatures[..] == Shifted(old(temperatures[..]), r.value);
      var sum := SumTemperatures();
      runningAvg := sum / RUN_AVG_LENGTH as real;
    }
  }

  /** element_compare: by id only. */
  function ElementCompare(x: Sensor, y: Sensor): int {
    if x.sensorId < y.sensorId then -1 else if x.sensorId > y.sensorId then 1 else 0
  }

  /** The comparison datamgr hands to dplist is a total preorder, as sorting and searching assume. */
  lemma ElementComparePreorder(U: set<Sensor>)
    ensures Preorder(ElementCompare, U)
    ensures forall x, y | x in U && y in U :: ElementCompare(x, y) == 0 <==> x.sensorId == y.sensorId
    ensures forall x, y | x in U && y in U :: ElementCompare(x, y) < 0 <==> x.sensorId < y.sensorId
  {
  }

  class Manager {
    var list: DL.List<Sensor>
    ghost var sensors: seq<Sensor>
    /** The map file as loaded, and the readings consumed since. */
    ghost var records: seq<Record>
    ghost var history: seq<Reading>

    /** The list holds one sensor per record, in file order, none sharing storage, and every one shows
        exactly what the consumed readings imply. */
    ghost predicate Valid()
      reads this, list, list.nodes, sensors, set s | s in sensors :: s.temperatures
    {
      && list.Valid() && list.compare == ElementCompare && list.Contents() == sensors
      && list.freedElements == []
      && Agrees(sensors, records, history)
    }

    constructor ()
      ensures Valid() && records == [] && history == [] && fresh(list) && list.nodes == []
      ensures sensors == []
    {
      list := new DL.List<Sensor>(ElementCompare);
      sensors, records, history := [], [], [];
      new;
      assert list.Contents() == [];
    }

    /** Line 51: insertion of a copy at index dpl_size(list), that is, at the end. */
    method AppendToList(sensor: Sensor, copy: Sensor)
      requires list.Valid()
      modifies list, list.nodes
      ensures list.Valid() && list.Contents() == old(list.Contents()) + [copy]
      ensures list.freedElements == old(list.freedElements)
      ensures forall i :: 0 <= i < |list.nodes| ==> list.nodes[i] in old(list.nodes) || fresh(list.nodes[i])
    {
      hide InsertAt, DL.Chained, Accounted, DL.Payloads;
      ghost var contents, nodes := list.Contents(), list.nodes;
      ghost var n := list.InsertAtIndex(sensor, list.size, true, copy);
      InsertAtEnd(nodes, n);
      InsertAtEnd(contents, copy);
    }

    /** One iteration of the map-loading loop. */
    method AddRecord(r: Record)
      requires Valid() && history == []
      modifies this, list, list.nodes
      ensures Valid() && history == [] && records == old(records) + [r] && list == old(list)
      ensures |sensors| == |old(sensors)| + 1 && old(sensors) <= sensors
      ensures fresh(sensors[|sensors| - 1]) && fresh(sensors[|sensors| - 1].temperatures)
      ensures forall i :: 0 <= i < |list.nodes| ==> list.nodes[i] in old(list.nodes) || fresh(list.nodes[i])
    {
      hide Agrees, DL.List.Valid, DL.List.Contents;
      assert forall i :: 0 <= i < |sensors| ==> sensors[i] in sensors;
      var sensor := new Sensor(r.id, r.room);
      var copy := new Sensor.Copy(sensor);
      AppendToList(sensor, copy);
      AgreesExtend(sensors, records, copy, r);
      sensors := sensors + [copy];
      records := records + [r];
    }

    /** Lines 60 to 78: look the sensor up and, if it is known, update it. */
    method Consume(r: Reading)
      requires Valid()
      modifies this`history, sensors, set s | s in sensors :: s.temperatures
      ensures Valid() && history == old(history) + [r]
    {
      hide Agrees, Separate, EntryAfter, AfterReading, Shown, FirstRecord, Sensor.Shows;
      hide DL.List.Valid, DL.List.Contents;
      var index := Lookup(r.id);
      ghost var before := Shown(sensors);
      AgreesShown(sensors, records, history);
      if index != -1 {
        UpdateOne(list, index, r);
      }
      AgreesStep(sensors, records, history, r, before);
      history := history + [r];
    }

    /** The search shared by the update and the queries: a key structure with the wanted id. */
    method Lookup(id: U16) returns (index: int)
      requires Valid()
      ensures index == FirstRecord(records, id)
    {
      hide Average, Window, Received;
      var search := new Sensor(id, 0);
      index := list.GetIndexOfElement(search);
      assert forall i :: 0 <= i < |records| ==> sensors[i].Shows().id == records[i].id;
      FirstRecordUnique(records, id, index);
    }

    method GetRoomId(id: U16) returns (room: U16)
      requires Valid()
      ensures room == RoomAnswer(records, id) && IsRoom(records, id, room)
    {
      AnswersSpelledOut(records, id, history);
      var index := Lookup(id);
      room := 0xFFFF;
      if index != -1 {
        var e := list.GetElementAtIndex(index);
        room := e.value.roomId;
      }
    }

    method GetAvg(id: U16) returns (avg: real)
      requires Valid()
      ensures avg == AvgAnswer(records, id, history) && IsAverage(records, id, history, avg)
    {
      AnswersSpelledOut(records, id, history);
      var index := Lookup(id);
      avg := 0.0;
      if index != -1 {
        var e := list.GetElementAtIndex(index);
        avg := e.value.runningAvg;
      }
    }

    method GetLastModified(id: U16) returns (last: int)
      requires Valid()
      ensures last == LastAnswer(records, id, history) && IsLatest(records, id, history, last)
    {
      AnswersSpelledOut(records, id, history);
      var index := Lookup(id);
      last := 0;
      if index != -1 {
        var e := list.GetElementAtIndex(index);
        last := e.value.lastModified;
      }
    }

    /** datamgr_free: every node and, through element_free, every sensor is freed exactly once. */
    method Free()
      requires Valid()
      modifies list
      ensures NoDuplicates(list.freed) && Elements(list.freed) == list.linked
      ensures list.freedElements == sensors && NoDuplicates(list.freedElements)
    {
      SeparateDistinct(sensors);
      list.Free(true);
    }

    method GetTotalSensors() returns (n: int)
      requires Valid()
      ensures n == |records|
    {
      n := list.size;
    }
  }

  ghost predicate Separate(sensors: seq<Sensor>) {
    && (forall i {:trigger sensors[i]} :: 0 <= i < |sensors| ==> sensors[i].temperatures.Length == RUN_AVG_LENGTH)
    && (forall i, j :: 0 <= i < j < |sensors| ==>
          sensors[i] != sensors[j] && sensors[i].temperatures != sensors[j].temperatures)
  }

  lemma SeparateDistinct(sensors: seq<Sensor>)
    requires Separate(sensors)
    ensures NoDuplicates(sensors)
  {
    assert PairwiseDistinct(sensors);
    NoDuplicatesIndexed(sensors);
  }

  /** One sensor per record, none sharing storage, each showing what the readings imply. */
  ghost predicate Agrees(sensors: seq<Sensor>, records: seq<Record>, history: seq<Reading>)
    reads sensors, set s | s in sensors :: s.temperatures
  {
    && |sensors| == |records|
    && Separate(sensors)
    && (forall i {:trigger sensors[i]} :: 0 <= i < |sensors| ==>
          sensors[i].Shows() == EntryAfter(records, i, history))
  }

  lemma AgreesExtend(sensors: seq<Sensor>, records: seq<Record>, s: Sensor, r: Record)
    requires Agrees(sensors, records, [])
    requires s !in sensors && s.temperatures.Length == RUN_AVG_LENGTH
    requires forall t :: t in sensors ==> t.temperatures != s.temperatures
    requires s.Shows() == View(r.id, Truncated(r.room), 0.0, 0, seq(RUN_AVG_LENGTH, _ => 0.0))
    ensures Agrees(sensors + [s], records + [r], [])
  {
    hide EntryAfter;
    InitialEntry(records, r);
    var t := sensors + [s];
    forall i | 0 <= i < |t| ensures t[i].Shows() == EntryAfter(records + [r], i, []) {
      AppendRecord(records, r, i);
      assert i < |sensors| ==> t[i] == sensors[i] && t[i] in sensors;
    }
    assert forall i :: 0 <= i < |sensors| ==> t[i] == sensors[i] && t[i] in sensors;
  }

  lemma AgreesShown(sensors: seq<Sensor>, records: seq<Record>, history: seq<Reading>)
    requires Agrees(sensors, records, history)
    ensures |sensors| == |records| && Separate(sensors)
    ensures forall i {:trigger Shown(sensors)[i]} :: 0 <= i < |sensors| ==>
              Shown(sensors)[i] == EntryAfter(records, i, history)
  {
    hide EntryAfter;
  }

  /** What one reading does to the sensors is what it does to the entries; `before` is what they showed. */
  lemma AgreesStep(sensors: seq<Sensor>, records: seq<Record>, h: seq<Reading>, r: Reading, before: seq<View>)
    requires |before| == |sensors| == |records| && Separate(sensors)
    requires forall i {:trigger before[i]} :: 0 <= i < |before| ==> before[i] == EntryAfter(records, i, h)
    requires var i := FirstRecord(records, r.id);
             if i < 0 then Shown(sensors) == before
             else before[i].temps != [] && Shown(sensors) == before[i := AfterReading(before[i], r)]
    ensures Agrees(sensors, records, h + [r])
  {
    hide EntryAfter, Average, Shifted, Shown;
    forall i | 0 <= i < |sensors| ensures sensors[i].Shows() == EntryAfter(records, i, h + [r]) {
      EntryStep(records, i, h, r);
      assert before[i] == EntryAfter(records, i, h);
      assert Shown(sensors)[i] == sensors[i].Shows();
    }
  }

  /** Lines 64 to 77 for a known sensor, seen from the whole table: no other sensor shows anything new. */
  method UpdateOne(list: DL.List<Sensor>, index: nat, r: Reading)
    requires list.Valid() && index < |list.Contents()| && Separate(list.Contents())
    modifies list.Contents()[index], list.Contents()[index].temperatures
    ensures list.Valid() && list.Contents() == old(list.Contents())
    ensures old(list.Contents()[index].Shows()).temps != []
    ensures Shown(list.Contents())
            == old(Shown(list.Contents()))[index := AfterReading(old(list.Contents()[index].Shows()), r)]
  {
    hide DL.List.Valid, Average, Shifted;
    var e := list.GetElementAtIndex(index);
    e.value.Update(r);
  }

  function AfterReading(v: View, r: Reading): View
    requires v.temps != []
  {
    var w := Shifted(v.temps, r.value);
    v.(last := r.ts, temps := w, avg := Average(w))
  }

  /** In plain terms, the whole table is what the map file and the consumed readings say. */
  lemma TableDescribed(m: Manager, i: nat)
    requires m.Valid() && i < |m.records|
    ensures |m.list.Contents()| == |m.records|
    ensures Describes(m.records, i, m.history, m.list.Contents()[i].Shows())
  {
    hide EntryAfter, Describes;
    EntryDescribed(m.records, i, m.history);
  }

  /** What every sensor shows. */
  ghost function Shown(sensors: seq<Sensor>): (v: seq<View>)
    reads sensors, set s | s in sensors :: s.temperatures
    ensures |v| == |sensors| && forall i :: 0 <= i < |v| ==> v[i] == sensors[i].Shows()
  {
    seq(|sensors|, i requires 0 <= i < |sensors| reads sensors, set s | s in sensors :: s.temperatures =>
      sensors[i].Shows())
  }

  lemma InitialEntry(records: seq<Record>, r: Record)
    ensures EntryAfter(records + [r], |records|, [])
            == View(r.id, Truncated(r.room), 0.0, 0, seq(RUN_AVG_LENGTH, _ => 0.0))
  {
    AppendRecord(records, r, |records|);
    var w := Window([]);
    assert w == seq(RUN_AVG_LENGTH, _ => 0.0);
    SumBounds(w, 0.0, 0.0);
  }

  /** The map-loading loop, from a fresh list. */
  method LoadMap(mapFile: seq<Record>) returns (m: Manager)
    ensures fresh(m) && m.Valid() && m.records == mapFile && m.history == []
    ensures fresh(m.sensors) && forall i :: 0 <= i < |m.sensors| ==> fresh(m.sensors[i].temperatures)
  {
    hide Manager.Valid;
    m := new Manager();
    for i := 0 to |mapFile|
      invariant fresh(m) && fresh(m.list) && m.Valid() && m.history == []
      invariant m.records == mapFile[..i]
      invariant fresh(m.list.nodes) && fresh(m.sensors)
      invariant forall j :: 0 <= j < |m.sensors| ==> fresh(m.sensors[j].temperatures)
    {
      m.AddRecord(mapFile[i]);
      assert mapFile[..i + 1] == mapFile[..i] + [mapFile[i]];
    }
    assert mapFile[..|mapFile|] == mapFile;
  }

  /** datamgr_parse_sensor_data: load the map, then apply whatever the buffer hands over. `polls[k]` is
      the outcome of the k-th sbuffer_remove; the loop ends when the buffer is gone. */
  method ParseSensorData(mapFile: seq<Record>, polls: seq<Option<Reading>>) returns (m: Manager)
    ensures fresh(m) && m.Valid() && m.records == mapFile && m.history == Somes(polls)
  {
    hide Manager.Valid;
    m := LoadMap(mapFile);
    for i := 0 to |polls|
      invariant fresh(m) && m.Valid() && m.records == mapFile
      invariant m.history == Somes(polls[..i])
      invariant fresh(m.sensors)
      invariant forall j :: 0 <= j < |m.sensors| ==> fresh(m.sensors[j].temperatures)
    {
      assert polls[..i + 1] == polls[..i] + [polls[i]];
      SomesConcat(polls[..i], [polls[i]]);
      if polls[i].Some? {
        m.Consume(polls[i].value);
      }
    }
    assert polls[..|polls|] == polls;
  }

  /** Two tables loaded from the same map answer alike about an id as soon as they consumed the same readings
      of that id, whatever they consumed of other ids and in whatever interleaving. */
  method OwnReadingsDecide(m: Manager, m': Manager, id: U16)
    returns (avg: real, avg': real, last: int, last': int, room: U16, room': U16)
    requires m.Valid() && m'.Valid() && m.records == m'.records && Of(m.history, id) == Of(m'.history, id)
    ensures avg == avg' && last == last' && room == room'
  {
    hide Manager.Valid, AvgAnswer, LastAnswer, Of;
    AnswersDependOnOwnReadings(m.records, id, m.history, m'.history);
    avg := m.GetAvg(id);
    avg' := m'.GetAvg(id);
    last := m.GetLastModified(id);
    last' := m'.GetLastModified(id);
    room := m.GetRoomId(id);
    room' := m'.GetRoomId(id);
  }

  /** dpl_copy with element_copy as its callback. */
  method DeepCopy(m: Manager) returns (copy: DL.List<Sensor>)
    requires m.Valid()
    ensures fresh(copy) && copy.Valid() && fresh(copy.nodes) && |copy.nodes| == |m.sensors|
    ensures Separate(copy.Contents())
    ensures forall i :: 0 <= i < |m.sensors| ==>
              var s := copy.Contents()[i];
              fresh(s) && fresh(s.temperatures) && s.Shows() == m.sensors[i].Shows()
  {
    hide DL.Chained, Accounted, Agrees, NoDuplicates;
    var copies: seq<Sensor> := [];
    for i := 0 to m.list.size
      invariant |copies| == i
      invariant forall j :: 0 <= j < i ==>
                  fresh(copies[j]) && fresh(copies[j].temperatures) && copies[j].Shows() == m.sensors[j].Shows()
      invariant Separate(copies)
    {
      SlotsOf(m, i);
      var e := m.list.GetElementAtIndex(i);
      var c := new Sensor.Copy(e.value);
      copies := copies + [c];
    }
    copy := m.list.Copy(copies);
  }

  /** And updates of the copy never show in the original, nor in the copy's other sensors. */
  method SnapshotThenUpdateCopy(m: Manager, index: nat, r: Reading) returns (copy: DL.List<Sensor>)
    requires m.Valid() && index < |m.sensors|
    ensures m.Valid() && m.sensors == old(m.sensors) && Shown(m.sensors) == old(Shown(m.sensors))
    ensures copy.Valid() && |copy.Contents()| == |m.sensors|
    ensures m.sensors[index].temperatures.Length > 0
    ensures Shown(copy.Contents()) == Shown(m.sensors)[index := AfterReading(m.sensors[index].Shows(), r)]
  {
    hide DL.List.Valid, Agrees, Separate, Shifted, Average;
    copy := DeepCopy(m);
    AgreesShown(m.sensors, m.records, m.history);
    ghost var before := Shown(copy.Contents());
    assert before == Shown(m.sensors);
    UpdateOne(copy, index, r);
  }

  lemma SlotsOf(m: Manager, i: nat)
    requires m.Valid() && i < |m.sensors|
    ensures m.sensors[i].temperatures.Length == RUN_AVG_LENGTH && m.list.size == |m.sensors|
  {
  }

  /** The consuming loop over readings that did arrive. */
  method ConsumeAll(m: Manager, rs: seq<Reading>)
    requires m.Valid()
    modifies m`history, m.sensors, set s | s in m.sensors :: s.temperatures
    ensures m.Valid() && m.history == old(m.history) + rs
  {
    hide Manager.Valid;
    for k := 0 to |rs|
      invariant m.Valid() && m.history == old(m.history) + rs[..k]
    {
      m.Consume(rs[k]);
      assert rs[..k + 1] == rs[..k] + [rs[k]];
    }
    assert rs[..|rs|] == rs;
  }

  /** A deep copy is a snapshot: updates of the original never show in it. */
  method SnapshotThenConsume(m: Manager, rs: seq<Reading>) returns (copy: DL.List<Sensor>)
    requires m.Valid()
    modifies m`history, m.sensors, set s | s in m.sensors :: s.temperatures
    ensures m.Valid() && m.history == old(m.history) + rs
    ensures copy.Valid() && |copy.nodes| == |m.sensors|
    ensures forall i :: 0 <= i < |m.sensors| ==> copy.Contents()[i].Shows() == old(m.sensors[i].Shows())
  {
    hide DL.List.Valid, Agrees, Separate, DL.Payloads, Manager.Valid;
    copy := DeepCopy(m);
    ConsumeAll(m, rs);
  }
}
