/**
 * What the core sees of the remote machine: opaque characteristic
 * identifiers, the machine-type flags, and the two transport capabilities
 * it is handed (a presence test and a byte reader).
 */
module Device {
  import opened Errors
  import opened FixedPoint

  /** Characteristic identifiers; only their distinctness matters here. */
  datatype Uuid =
    | FeatureUuid
    | SpeedRangeUuid
    | InclinationRangeUuid
    | ResistanceLevelRangeUuid
    | PowerRangeUuid
    | HeartRateRangeUuid

  /** The machine-type flags the pruning rules test; a machine type is a set of them. */
  datatype MachineType = Treadmill | CrossTrainer | IndoorBike | Rower

  /** Whether the device exposes a characteristic. */
  type Presence = Uuid -> bool

  /** The bytes behind a characteristic, or the transport's failure. */
  type Reader = Uuid -> Result<Bytes>
}

/** The five range-bearing target settings, in the order their ranges are read. */
module Targets {
  import opened FixedPoint
  import opened Device
  import opened MachineSettings

  /** Keys of the supported-ranges map. */
  datatype Key = TargetSpeed | TargetInclination | TargetResistance | TargetPower | TargetHeartRate

  /** A setting, the characteristic holding its range, its map key and its number format. */
  datatype Target = Target(setting: Setting, uuid: Uuid, key: Key, format: Format)

  /** "u2.01": unsigned 16-bit, hundredths. */
  const SpeedFormat: Format := Format(false, 2, 2)
  /** "s2.1": signed 16-bit, tenths. */
  const InclinationFormat: Format := Format(true, 2, 1)
  /** "s2.1": signed 16-bit, tenths. */
  const ResistanceFormat: Format := Format(true, 2, 1)
  /** "s2": signed 16-bit, units. */
  const PowerFormat: Format := Format(true, 2, 0)
  /** "u1": unsigned 8-bit, units. */
  const HeartRateFormat: Format := Format(false, 1, 0)

  const SpeedTarget: Target := Target(Speed, SpeedRangeUuid, TargetSpeed, SpeedFormat)
  const InclinationTarget: Target := Target(Incline, InclinationRangeUuid, TargetInclination, InclinationFormat)
  const ResistanceTarget: Target := Target(Resistance, ResistanceLevelRangeUuid, TargetResistance, ResistanceFormat)
  const PowerTarget: Target := Target(Power, PowerRangeUuid, TargetPower, PowerFormat)
  const HeartRateTarget: Target := Target(HeartRate, HeartRateRangeUuid, TargetHeartRate, HeartRateFormat)

  const Table: seq<Target> := [SpeedTarget, InclinationTarget, ResistanceTarget, PowerTarget, HeartRateTarget]

  const RangeBearing: set<Setting> := {Speed, Incline, Resistance, Power, HeartRate}

  /** Every format in ts is readable. */
  predicate ValidFormats(ts: seq<Target>) {
    forall t | t in ts :: t.format.Valid()
  }

  /** Entries of ts have pairwise different settings, characteristics and keys. */
  predicate Distinct(ts: seq<Target>) {
    forall a, b | 0 <= a < b < |ts| ::
      ts[a].setting != ts[b].setting && ts[a].uuid != ts[b].uuid && ts[a].key != ts[b].key
  }

  /** Every table entry has a readable format. */
  lemma TableFormats()
    ensures ValidFormats(Table)
  {
  }

  /** Table entries differ in setting, characteristic and key. */
  lemma TableDistinct()
    ensures Distinct(Table)
  {
    forall a, b | 0 <= a < b < |Table|
      ensures Table[a].setting != Table[b].setting && Table[a].uuid != Table[b].uuid && Table[a].key != Table[b].key
    {
      assert Table[a].setting == MachineSettings.Order[a] && Table[b].setting == MachineSettings.Order[b];
    }
  }

  /** The table covers exactly the range-bearing settings. */
  lemma TableCovers()
    ensures RangeBearing == set t | t in Table :: t.setting
  {
    assert forall t | t in Table :: t.setting in RangeBearing;
    forall s | s in RangeBearing ensures exists t | t in Table :: t.setting == s {
      if s == Speed { assert Table[0].setting == s; }
      else if s == Incline { assert Table[1].setting == s; }
      else if s == Resistance { assert Table[2].setting == s; }
      else if s == Power { assert Table[3].setting == s; }
      else { assert Table[4].setting == s; }
    }
  }

  /** No table entry names the Feature characteristic. */
  lemma TableAvoidsFeature()
    ensures forall t | t in Table :: t.uuid != FeatureUuid
  {
  }

  /** The table is well formed, covers exactly the range-bearing settings and never names the Feature characteristic. */
  lemma TableWellFormed()
    ensures ValidFormats(Table) && Distinct(Table)
    ensures RangeBearing == set t | t in Table :: t.setting
    ensures forall t | t in Table :: t.uuid != FeatureUuid
  {
    TableFormats();
    TableDistinct();
    TableCovers();
    TableAvoidsFeature();
  }
}
