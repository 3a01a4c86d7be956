/** Reading the value ranges of the range-bearing settings (read_supported_ranges). */
module Ranges {
  import opened Errors
  import opened FixedPoint
  import opened Device
  import opened MachineSettings
  import opened Targets

  /** Minimum, maximum (both included) and step of a setting, as exact values. */
  datatype SettingRange = SettingRange(minValue: real, maxValue: real, step: real)

  /**
   * A range characteristic holds exactly three values of the setting's
   * format: fewer bytes is a truncated read, more is trailing data.
   */
  function DecodeRange(fmt: Format, data: Bytes): (r: Result<SettingRange>)
    requires fmt.Valid()
    ensures r.Ok? <==> |data| == 3 * fmt.width
    ensures |data| < 3 * fmt.width ==> r == Err(Truncated)
    ensures |data| > 3 * fmt.width ==> r == Err(TrailingData)
  {
    var w := fmt.width;
    if |data| < 3 * w then Err(Truncated)
    else if |data| > 3 * w then Err(TrailingData)
    else Ok(SettingRange(
      Scaled(fmt, DecodeInt(fmt, data[..w])),
      Scaled(fmt, DecodeInt(fmt, data[w..2 * w])),
      Scaled(fmt, DecodeInt(fmt, data[2 * w..]))))
  }

  /** The characteristic a device with raw range (lo, hi, step) exposes. */
  function EncodeRange(fmt: Format, lo: int, hi: int, step: int): (data: Bytes)
    requires fmt.Valid() && InRange(fmt, lo) && InRange(fmt, hi) && InRange(fmt, step)
    ensures |data| == 3 * fmt.width
  {
    EncodeInt(fmt, lo) + EncodeInt(fmt, hi) + EncodeInt(fmt, step)
  }

  /** Decoding an encoded range gives the three scaled values, in order. */
  lemma DecodeEncodeRange(fmt: Format, lo: int, hi: int, step: int)
    requires fmt.Valid() && InRange(fmt, lo) && InRange(fmt, hi) && InRange(fmt, step)
    ensures DecodeRange(fmt, EncodeRange(fmt, lo, hi, step))
         == Ok(SettingRange(Scaled(fmt, lo), Scaled(fmt, hi), Scaled(fmt, step)))
  {
    var w := fmt.width;
    var data := EncodeRange(fmt, lo, hi, step);
    assert data[..w] == EncodeInt(fmt, lo);
    assert data[w..2 * w] == EncodeInt(fmt, hi);
    assert data[2 * w..] == EncodeInt(fmt, step);
  }

  /** The raw integer of value j (0 = min, 1 = max, 2 = step) of a range buffer. */
  function RawValue(fmt: Format, data: Bytes, j: nat): (v: int)
    requires fmt.Valid() && |data| == 3 * fmt.width && j < 3
    ensures InRange(fmt, v)
  {
    DecodeInt(fmt, data[j * fmt.width..(j + 1) * fmt.width])
  }

  /** Every buffer that decodes is the encoding of its three raw values. */
  lemma EncodeDecodeRange(fmt: Format, data: Bytes)
    requires fmt.Valid() && |data| == 3 * fmt.width
    ensures data == EncodeRange(fmt, RawValue(fmt, data, 0), RawValue(fmt, data, 1), RawValue(fmt, data, 2))
    ensures DecodeRange(fmt, data) == Ok(SettingRange(
              Scaled(fmt, RawValue(fmt, data, 0)), Scaled(fmt, RawValue(fmt, data, 1)), Scaled(fmt, RawValue(fmt, data, 2))))
  {
    var w := fmt.width;
    assert 0 * w == 0 && 1 * w == w && 2 * w == w + w && 3 * w == 2 * w + w;
    assert data[0 * w..1 * w] == data[..w];
    assert data[1 * w..2 * w] == data[w..2 * w];
    assert data[2 * w..3 * w] == data[2 * w..];
    EncodeDecodeInt(fmt, data[..w]);
    EncodeDecodeInt(fmt, data[w..2 * w]);
    EncodeDecodeInt(fmt, data[2 * w..]);
    assert data == data[..w] + data[w..2 * w] + data[2 * w..];
  }

  /** What _range returns for a target: its characteristic read and decoded. */
  function FetchRange(read: Reader, uuid: Uuid, fmt: Format): (r: Result<SettingRange>)
    requires fmt.Valid()
    ensures read(uuid).Err? ==> r == Err(read(uuid).error)
    ensures read(uuid).Ok? ==> r == DecodeRange(fmt, read(uuid).value)
  {
    var data :- read(uuid);
    DecodeRange(fmt, data)
  }

  /** The cursor position after k values of w bytes each. */
  function Taken(w: nat, k: nat): nat {
    if k == 0 then 0 else Taken(w, k - 1) + w
  }

  /** Three values take 3 * w bytes; fewer than three end before that. */
  lemma TakenBelowThree(w: nat, k: nat)
    requires k < 3
    ensures Taken(w, k) + w <= 3 * w && Taken(w, 3) == 3 * w
  {
    assert Taken(w, 1) == w && Taken(w, 2) == 2 * w;
  }

  /** The first k values of a range buffer, through a cursor that moves fmt.width bytes per value. */
  function Leading(fmt: Format, data: Bytes, k: nat): (vs: seq<real>)
    requires fmt.Valid() && Taken(fmt.width, k) <= |data|
    ensures |vs| == k
  {
    if k == 0 then []
    else
      var w := fmt.width;
      var start := Taken(w, k - 1);
      Leading(fmt, data, k - 1) + [Scaled(fmt, DecodeInt(fmt, data[start..start + w]))]
  }

  /** A buffer of exactly three values decodes to its three leading values. */
  lemma DecodeRangeLeading(fmt: Format, data: Bytes)
    requires fmt.Valid() && |data| == 3 * fmt.width
    ensures Taken(fmt.width, 3) == |data|
    ensures var vs := Leading(fmt, data, 3); DecodeRange(fmt, data) == Ok(SettingRange(vs[0], vs[1], vs[2]))
  {
    var w := fmt.width;
    assert Taken(w, 1) == w && Taken(w, 2) == 2 * w && Taken(w, 3) == 3 * w;
    assert data[0..w] == data[..w] && data[2 * w..3 * w] == data[2 * w..];
    assert Leading(fmt, data, 1) == [Scaled(fmt, DecodeInt(fmt, data[..w]))];
    assert Leading(fmt, data, 2) == Leading(fmt, data, 1) + [Scaled(fmt, DecodeInt(fmt, data[w..2 * w]))];
    assert Leading(fmt, data, 3) == Leading(fmt, data, 2) + [Scaled(fmt, DecodeInt(fmt, data[2 * w..]))];
  }

  /**
   * The decoding half of _range: take three values through a cursor and
   * insist that nothing is left.
   */
  method ParseRange(fmt: Format, data: Bytes) returns (r: Result<SettingRange>)
    requires fmt.Valid()
    ensures r == DecodeRange(fmt, data)
  {
    var w: nat := fmt.width;
    var values: seq<real> := [];
    var pos: nat := 0;
    for k := 0 to 3
      invariant pos == Taken(w, k) <= |data|
      invariant values == Leading(fmt, data, k)
    {
      if pos + w > |data| {
        TakenBelowThree(w, k);
        return Err(Truncated);
      }
      values := values + [Scaled(fmt, DecodeInt(fmt, data[pos..pos + w]))];
      pos := pos + w;
    }
    if pos < |data| {
      return Err(TrailingData);
    }
    DecodeRangeLeading(fmt, data);
    return Ok(SettingRange(values[0], values[1], values[2]));
  }

  /** _range: read the characteristic, then parse it. */
  method ReadRange(read: Reader, uuid: Uuid, fmt: Format) returns (r: Result<SettingRange>)
    requires fmt.Valid()
    ensures r == FetchRange(read, uuid, fmt)
  {
    var data :- read(uuid);
    r := ParseRange(fmt, data);
  }

  // The supported-ranges map, specified as a left fold over the target
  // table in reading order, stopping at the first failure.

  /** Reads the ranges of the targets in ts whose setting is in settings, adding them to acc. */
  function RangesFrom(settings: set<Setting>, read: Reader, ts: seq<Target>, acc: map<Key, SettingRange>)
    : (r: Result<map<Key, SettingRange>>)
    requires ValidFormats(ts)
    decreases |ts|
  {
    if ts == [] then Ok(acc)
    else
      var t := ts[0];
      if t.setting in settings then
        var v :- FetchRange(read, t.uuid, t.format);
        RangesFrom(settings, read, ts[1..], acc[t.key := v])
      else
        RangesFrom(settings, read, ts[1..], acc)
  }

  /** The fold succeeds exactly when every requested range can be fetched. */
  lemma {:induction false} RangesFromSucceeds(settings: set<Setting>, read: Reader, ts: seq<Target>,
                                              acc: map<Key, SettingRange>)
    requires ValidFormats(ts)
    ensures RangesFrom(settings, read, ts, acc).Ok? <==>
              forall t | t in ts && t.setting in settings :: FetchRange(read, t.uuid, t.format).Ok?
    decreases |ts|
  {
    if ts != [] {
      var t := ts[0];
      assert forall u | u in ts :: u == t || u in ts[1..];
      if t.setting in settings {
        var f := FetchRange(read, t.uuid, t.format);
        if f.Ok? {
          RangesFromSucceeds(settings, read, ts[1..], acc[t.key := f.value]);
        }
      } else {
        RangesFromSucceeds(settings, read, ts[1..], acc);
      }
    }
  }

  /** A successful fold has acc's keys and the keys of the requested targets. */
  lemma {:induction false} RangesFromKeys(settings: set<Setting>, read: Reader, ts: seq<Target>,
                                          acc: map<Key, SettingRange>)
    requires ValidFormats(ts)
    requires RangesFrom(settings, read, ts, acc).Ok?
    ensures RangesFrom(settings, read, ts, acc).value.Keys
         == acc.Keys + (set t | t in ts && t.setting in settings :: t.key)
    decreases |ts|
  {
    if ts != [] {
      var t := ts[0];
      assert forall u | u in ts :: u == t || u in ts[1..];
      if t.setting in settings {
        var acc' := acc[t.key := FetchRange(read, t.uuid, t.format).value];
        assert RangesFrom(settings, read, ts, acc) == RangesFrom(settings, read, ts[1..], acc');
        RangesFromKeys(settings, read, ts[1..], acc');
      } else {
        RangesFromKeys(settings, read, ts[1..], acc);
      }
    }
  }

  /**
   * In a successful fold each requested target's key is bound to its fetched
   * range, and the entries of acc that no target overwrites are kept.
   */
  lemma {:induction false} RangesFromValues(settings: set<Setting>, read: Reader, ts: seq<Target>,
                                            acc: map<Key, SettingRange>)
    requires ValidFormats(ts) && Distinct(ts)
    requires RangesFrom(settings, read, ts, acc).Ok?
    ensures var m := RangesFrom(settings, read, ts, acc).value;
      && (forall t | t in ts && t.setting in settings ::
            t.key in m && FetchRange(read, t.uuid, t.format) == Ok(m[t.key]))
      && (forall key | key in acc && (forall t | t in ts :: t.key != key) :: key in m && m[key] == acc[key])
    decreases |ts|
  {
    if ts != [] {
      var t := ts[0];
      assert forall u | u in ts[1..] :: u.key != t.key;
      assert forall u | u in ts :: u == t || u in ts[1..];
      if t.setting in settings {
        var acc' := acc[t.key := FetchRange(read, t.uuid, t.format).value];
        assert RangesFrom(settings, read, ts, acc) == RangesFrom(settings, read, ts[1..], acc');
        RangesFromValues(settings, read, ts[1..], acc');
      } else {
        RangesFromValues(settings, read, ts[1..], acc);
      }
    }
  }

  /** Target i of ts is requested, fails with e, and every requested target before it succeeds. */
  predicate FailsFirstAt(settings: set<Setting>, read: Reader, ts: seq<Target>, i: nat, e: Error)
    requires ValidFormats(ts)
  {
    && i < |ts|
    && ts[i].setting in settings
    && FetchRange(read, ts[i].uuid, ts[i].format) == Err(e)
    && forall j | 0 <= j < i && ts[j].setting in settings :: FetchRange(read, ts[j].uuid, ts[j].format).Ok?
  }

  /** A failure is the error of the first requested target whose range cannot be fetched. */
  lemma {:induction false} RangesFromFirstFailure(settings: set<Setting>, read: Reader, ts: seq<Target>,
                                                  acc: map<Key, SettingRange>)
    requires ValidFormats(ts)
    requires RangesFrom(settings, read, ts, acc).Err?
    ensures exists i: nat :: FailsFirstAt(settings, read, ts, i, RangesFrom(settings, read, ts, acc).error)
    decreases |ts|
  {
    var t := ts[0];
    var e := RangesFrom(settings, read, ts, acc).error;
    if t.setting in settings && FetchRange(read, t.uuid, t.format).Err? {
      assert FailsFirstAt(settings, read, ts, 0, e);
    } else {
      var acc' := if t.setting in settings then acc[t.key := FetchRange(read, t.uuid, t.format).value] else acc;
      assert RangesFrom(settings, read, ts, acc) == RangesFrom(settings, read, ts[1..], acc');
      RangesFromFirstFailure(settings, read, ts[1..], acc');
      var i: nat :| FailsFirstAt(settings, read, ts[1..], i, e);
      assert forall j | 1 <= j < i + 1 :: ts[j] == ts[1..][j - 1];
      assert FailsFirstAt(settings, read, ts, i + 1, e);
    }
  }

  /** What read_supported_ranges returns. */
  function SupportedRanges(settings: set<Setting>, read: Reader): (r: Result<map<Key, SettingRange>>)
  {
    RangesFrom(settings, read, Table, map[])
  }

  /**
   * read_supported_ranges succeeds exactly when every range-bearing setting
   * present has a decodable range; the map then has exactly those settings'
   * keys, each bound to its decoded range.
   */
  lemma SupportedRangesSpec(settings: set<Setting>, read: Reader)
    ensures var r := SupportedRanges(settings, read);
      && (r.Ok? <==> forall t | t in Table && t.setting in settings :: FetchRange(read, t.uuid, t.format).Ok?)
      && (r.Ok? ==> r.value.Keys == set t | t in Table && t.setting in settings :: t.key)
      && (r.Ok? ==> forall t | t in Table && t.setting in settings ::
            t.key in r.value && r.value[t.key] == FetchRange(read, t.uuid, t.format).value)
  {
    TableFormats();
    TableDistinct();
    RangesFromSucceeds(settings, read, Table, map[]);
    if SupportedRanges(settings, read).Ok? {
      RangesFromKeys(settings, read, Table, map[]);
      RangesFromValues(settings, read, Table, map[]);
    }
  }

  /** The characteristics whose ranges are wanted: one per target of ts whose setting is in settings, in order. */
  function Requested(settings: set<Setting>, ts: seq<Target>): seq<Uuid>
  {
    if ts == [] then []
    else (if ts[0].setting in settings then [ts[0].uuid] else []) + Requested(settings, ts[1..])
  }

  /** With distinct characteristics, a target's characteristic is requested exactly when its setting is present. */
  lemma {:induction false} RequestedMembers(settings: set<Setting>, ts: seq<Target>)
    requires Distinct(ts)
    ensures forall t | t in ts :: t.uuid in Requested(settings, ts) <==> t.setting in settings
    ensures forall u | u in Requested(settings, ts) :: exists t | t in ts :: t.uuid == u
  {
    if ts != [] {
      RequestedMembers(settings, ts[1..]);
      assert forall u | u in ts[1..] :: u.uuid != ts[0].uuid;
      assert forall u | u in ts :: u == ts[0] || u in ts[1..];
    }
  }

  /** One step of the requests at position k of the table. */
  lemma RequestStep(settings: set<Setting>, k: nat)
    requires k < |Table|
    ensures Requested(settings, Table[k..]) ==
      (if Table[k].setting in settings then [Table[k].uuid] else []) + Requested(settings, Table[k + 1..])
  {
    assert Table[k..][0] == Table[k] && Table[k..][1..] == Table[k + 1..];
  }

  /** Over the whole table the requests are, in order: speed, inclination, resistance, power, heart rate. */
  lemma RequestedOrder(settings: set<Setting>)
    ensures Requested(settings, Table) ==
      (if Speed in settings then [SpeedRangeUuid] else [])
      + ((if Incline in settings then [InclinationRangeUuid] else [])
      + ((if Resistance in settings then [ResistanceLevelRangeUuid] else [])
      + ((if Power in settings then [PowerRangeUuid] else [])
      + (if HeartRate in settings then [HeartRateRangeUuid] else []))))
  {
    assert Table[0..] == Table;
    RequestStep(settings, 0);
    RequestStep(settings, 1);
    RequestStep(settings, 2);
    RequestStep(settings, 3);
    RequestStep(settings, 4);
    assert Table[5..] == [];
  }

  /**
   * The characteristics read, after those in done: the requests up to and
   * including the first failing one.
   */
  function ReadsFrom(settings: set<Setting>, read: Reader, ts: seq<Target>, done: seq<Uuid>): (log: seq<Uuid>)
    requires ValidFormats(ts)
  {
    if ts == [] then done
    else if ts[0].setting !in settings then ReadsFrom(settings, read, ts[1..], done)
    else if FetchRange(read, ts[0].uuid, ts[0].format).Err? then done + [ts[0].uuid]
    else ReadsFrom(settings, read, ts[1..], done + [ts[0].uuid])
  }

  /** The reads are a prefix of the requests. */
  lemma {:induction false} ReadsArePrefix(settings: set<Setting>, read: Reader, ts: seq<Target>, done: seq<Uuid>)
    requires ValidFormats(ts)
    ensures ReadsFrom(settings, read, ts, done) <= done + Requested(settings, ts)
    decreases |ts|
  {
    if ts != [] {
      var t := ts[0];
      var rest := Requested(settings, ts[1..]);
      if t.setting in settings {
        var now := done + [t.uuid];
        assert done + Requested(settings, ts) == now + rest;
        if FetchRange(read, t.uuid, t.format).Err? {
          assert now <= now + rest;
        } else {
          ReadsArePrefix(settings, read, ts[1..], now);
        }
      } else {
        assert Requested(settings, ts) == rest;
        ReadsArePrefix(settings, read, ts[1..], done);
      }
    }
  }

  /** When the fold succeeds every request is read. */
  lemma {:induction false} ReadsAll(settings: set<Setting>, read: Reader, ts: seq<Target>, done: seq<Uuid>,
                                    acc: map<Key, SettingRange>)
    requires ValidFormats(ts)
    requires RangesFrom(settings, read, ts, acc).Ok?
    ensures ReadsFrom(settings, read, ts, done) == done + Requested(settings, ts)
    decreases |ts|
  {
    if ts != [] {
      var t := ts[0];
      var rest := Requested(settings, ts[1..]);
      if t.setting in settings {
        var now := done + [t.uuid];
        assert done + Requested(settings, ts) == now + rest;
        var acc' := acc[t.key := FetchRange(read, t.uuid, t.format).value];
        assert RangesFrom(settings, read, ts, acc) == RangesFrom(settings, read, ts[1..], acc');
        ReadsAll(settings, read, ts[1..], now, acc');
      } else {
        assert Requested(settings, ts) == rest;
        ReadsAll(settings, read, ts[1..], done, acc);
      }
    }
  }

  /** One step of the fold and of the read log at the head t of ts. */
  lemma FoldStep(settings: set<Setting>, read: Reader, ts: seq<Target>, t: Target,
                 acc: map<Key, SettingRange>, done: seq<Uuid>)
    requires ts != [] && ts[0] == t && ValidFormats(ts)
    ensures ValidFormats(ts[1..])
    ensures var f := FetchRange(read, t.uuid, t.format);
      RangesFrom(settings, read, ts, acc) ==
        (if t.setting !in settings then RangesFrom(settings, read, ts[1..], acc)
         else if f.Err? then Err(f.error)
         else RangesFrom(settings, read, ts[1..], acc[t.key := f.value]))
    ensures ReadsFrom(settings, read, ts, done) ==
        (if t.setting !in settings then ReadsFrom(settings, read, ts[1..], done)
         else if FetchRange(read, t.uuid, t.format).Err? then done + [t.uuid]
         else ReadsFrom(settings, read, ts[1..], done + [t.uuid]))
  {
  }

  /**
   * read_supported_ranges: for each range-bearing setting present, in the
   * fixed order, read and decode its range into the result map. The ghost
   * log records the characteristics read.
   */
  method ReadSupportedRanges(settings: set<Setting>, read: Reader)
    returns (r: Result<map<Key, SettingRange>>, ghost log: seq<Uuid>)
    ensures r == SupportedRanges(settings, read)
    ensures log == ReadsFrom(settings, read, Table, [])
  {
    var result: map<Key, SettingRange> := map[];
    log := [];
    ghost var rest := Table;
    TableFormats();

    FoldStep(settings, read, rest, SpeedTarget, result, log);
    if Speed in settings {
      log := log + [SpeedRangeUuid];
      var v := ReadRange(read, SpeedRangeUuid, SpeedFormat);
      if v.Err? {
        return Err(v.error), log;
      }
      result := result[TargetSpeed := v.value];
    }
    rest := rest[1..];
    assert SupportedRanges(settings, read) == RangesFrom(settings, read, rest, result);
    assert ReadsFrom(settings, read, Table, []) == ReadsFrom(settings, read, rest, log);

    FoldStep(settings, read, rest, InclinationTarget, result, log);
    if Incline in settings {
      log := log + [InclinationRangeUuid];
      var v := ReadRange(read, InclinationRangeUuid, InclinationFormat);
      if v.Err? {
        return Err(v.error), log;
      }
      result := result[TargetInclination := v.value];
    }
    rest := rest[1..];
    assert SupportedRanges(settings, read) == RangesFrom(settings, read, rest, result);
    assert ReadsFrom(settings, read, Table, []) == ReadsFrom(settings, read, rest, log);

    FoldStep(settings, read, rest, ResistanceTarget, result, log);
    if Resistance in settings {
      log := log + [ResistanceLevelRangeUuid];
      var v := ReadRange(read, ResistanceLevelRangeUuid, ResistanceFormat);
      if v.Err? {
        return Err(v.error), log;
      }
      result := result[TargetResistance := v.value];
    }
    rest := rest[1..];
    assert SupportedRanges(settings, read) == RangesFrom(settings, read, rest, result);
    assert ReadsFrom(settings, read, Table, []) == ReadsFrom(settings, read, rest, log);

    FoldStep(settings, read, rest, PowerTarget, result, log);
    if Power in settings {
      log := log + [PowerRangeUuid];
      var v := ReadRange(read, PowerRangeUuid, PowerFormat);
      if v.Err? {
        return Err(v.error), log;
      }
      result := result[TargetPower := v.value];
    }
    rest := rest[1..];
    assert SupportedRanges(settings, read) == RangesFrom(settings, read, rest, result);
    assert ReadsFrom(settings, read, Table, []) == ReadsFrom(settings, read, rest, log);

    FoldStep(settings, read, rest, HeartRateTarget, result, log);
    if HeartRate in settings {
      log := log + [HeartRateRangeUuid];
      var v := ReadRange(read, HeartRateRangeUuid, HeartRateFormat);
      if v.Err? {
        return Err(v.error), log;
      }
      result := result[TargetHeartRate := v.value];
    }
    rest := rest[1..];
    assert SupportedRanges(settings, read) == RangesFrom(settings, read, rest, result);
    assert ReadsFrom(settings, read, Table, []) == ReadsFrom(settings, read, rest, log);
    return Ok(result), log;
  }
}
