/**
 * Reading the Fitness Machine Feature characteristic and negotiating which
 * target settings are usable (read_features).
 */
module Features {
  import opened Errors
  import opened FixedPoint
  import opened Device
  import opened Bitfield
  import MachineFeatures
  import opened MachineSettings
  import opened Targets

  /** The machine features and the (raw or negotiated) target settings. */
  datatype Capabilities = Capabilities(features: set<MachineFeatures.Feature>, settings: set<Setting>)

  /** The u4 word at offset 0 or 4 of an 8-byte Feature record. */
  function Word(data: Bytes, offset: nat): (v: nat)
    requires |data| == 8 && (offset == 0 || offset == 4)
    ensures v == LeUnsigned(data[offset..offset + 4])
  {
    DecodeInt(U4, data[offset..offset + 4])
  }

  /**
   * Decoding the 8-byte record: any other length is refused; otherwise the
   * features word is bytes 0..3 and the settings word bytes 4..7, each read
   * strictly, features first.
   */
  function DecodeFeatureRecord(data: Bytes): (r: Result<Capabilities>)
    ensures |data| != 8 ==> r == Err(FeatureLength(|data|))
    ensures |data| == 8 ==> (r.Ok? <==> Strict(LeUnsigned(data[..4])) && Strict(LeUnsigned(data[4..])))
    ensures |data| == 8 && !Strict(LeUnsigned(data[..4])) ==> r == Err(UndefinedFeatureBits(LeUnsigned(data[..4])))
    ensures |data| == 8 && Strict(LeUnsigned(data[..4])) && !Strict(LeUnsigned(data[4..])) ==>
              r == Err(UndefinedSettingBits(LeUnsigned(data[4..])))
    ensures r.Ok? ==> Value(MachineFeatures.Order, r.value.features) == LeUnsigned(data[..4])
    ensures r.Ok? ==> Value(MachineSettings.Order, r.value.settings) == LeUnsigned(data[4..])
  {
    if |data| != 8 then Err(FeatureLength(|data|))
    else
      assert data[..4] == data[0..4] && data[4..] == data[4..8];
      var features :- MachineFeatures.FromWord(Word(data, 0));
      var settings :- FromWord(Word(data, 4));
      Ok(Capabilities(features, settings))
  }

  /** The 8 bytes a device advertising c sends. */
  function EncodeFeatureRecord(c: Capabilities): (data: Bytes)
    ensures |data| == 8
  {
    WidthBound();
    Pow256Of4();
    LeBytes(Value(MachineFeatures.Order, c.features), 4) + LeBytes(Value(MachineSettings.Order, c.settings), 4)
  }

  /** Decoding reads back whatever was encoded. */
  lemma DecodeEncodeRecord(c: Capabilities)
    ensures DecodeFeatureRecord(EncodeFeatureRecord(c)) == Ok(c)
  {
    var data := EncodeFeatureRecord(c);
    assert data[..4] == LeBytes(Value(MachineFeatures.Order, c.features), 4);
    assert data[4..] == LeBytes(Value(MachineSettings.Order, c.settings), 4);
    MachineFeatures.FromValue(c.features);
    FromValue(c.settings);
  }

  /** A record that decodes is the encoding of what it decodes to: nothing is masked. */
  lemma EncodeDecodeRecord(data: Bytes)
    requires DecodeFeatureRecord(data).Ok?
    ensures EncodeFeatureRecord(DecodeFeatureRecord(data).value) == data
  {
    LeBytesOfUnsigned(data[..4]);
    LeBytesOfUnsigned(data[4..]);
    assert data == data[..4] + data[4..];
  }

  /** 32 bits span the same values as four bytes. */
  lemma Pow2Of32()
    ensures Pow2(32) == Pow256(4)
  {
    assert Pow2(8) == 0x100;
    assert Pow2(16) == 0x1_0000;
    assert Pow2(24) == 0x100_0000;
    assert Pow2(32) == 0x1_0000_0000;
    Pow256Of4();
  }

  /** A u4 word is strict exactly when none of its bits 17..31 is set. */
  lemma WordStrictIffNoHighBits(bs: Bytes)
    requires |bs| == 4
    ensures Strict(LeUnsigned(bs)) <==> forall i | Width <= i < 32 :: !BitsOf(LeUnsigned(bs), 32)[i]
  {
    Pow2Of32();
    StrictIffNoHighBit(LeUnsigned(bs));
  }

  /**
   * An 8-byte record is accepted exactly when neither u4 word has any of
   * its bits 17..31 set.
   */
  lemma RecordStrictIffNoHighBits(data: Bytes)
    requires |data| == 8
    ensures DecodeFeatureRecord(data).Ok? <==>
              (forall i | Width <= i < 32 :: !BitsOf(LeUnsigned(data[..4]), 32)[i])
              && (forall i | Width <= i < 32 :: !BitsOf(LeUnsigned(data[4..]), 32)[i])
  {
    WordStrictIffNoHighBits(data[..4]);
    WordStrictIffNoHighBits(data[4..]);
  }

  // Phase 1: settings whose range characteristic is absent are removed.

  /** The range-bearing settings whose range characteristic is absent. */
  function Absent(present: Presence): set<Setting> {
    set t | t in Table && !present(t.uuid) :: t.setting
  }

  /** Absent, one table entry at a time in table order. */
  lemma AbsentByEntry(present: Presence)
    ensures Absent(present) ==
      (if present(SpeedRangeUuid) then {} else {Speed})
      + (if present(InclinationRangeUuid) then {} else {Incline})
      + (if present(ResistanceLevelRangeUuid) then {} else {Resistance})
      + (if present(PowerRangeUuid) then {} else {Power})
      + (if present(HeartRateRangeUuid) then {} else {HeartRate})
  {
    assert forall t | t in Table :: t in [SpeedTarget, InclinationTarget, ResistanceTarget, PowerTarget, HeartRateTarget];
  }

  /** Phase 1 as the five removals the source performs, in order. */
  lemma PresencePruneByEntry(raw: set<Setting>, present: Presence)
    ensures PresencePrune(raw, present) ==
      raw - (if present(SpeedRangeUuid) then {} else {Speed})
          - (if present(InclinationRangeUuid) then {} else {Incline})
          - (if present(ResistanceLevelRangeUuid) then {} else {Resistance})
          - (if present(PowerRangeUuid) then {} else {Power})
          - (if present(HeartRateRangeUuid) then {} else {HeartRate})
  {
    AbsentByEntry(present);
  }

  /** A table entry's setting is absent exactly when its characteristic is; only range-bearing settings are. */
  lemma AbsentMembers(present: Presence)
    ensures forall t | t in Table :: t.setting in Absent(present) <==> !present(t.uuid)
    ensures Absent(present) <= RangeBearing
  {
    AbsentByEntry(present);
  }

  function PresencePrune(raw: set<Setting>, present: Presence): (r: set<Setting>)
    ensures r <= raw
    ensures forall t | t in Table :: t.setting in r <==> t.setting in raw && present(t.uuid)
    ensures forall s | s !in RangeBearing :: s in r <==> s in raw
  {
    AbsentMembers(present);
    raw - Absent(present)
  }

  // Phase 2: settings atypical for the machine type are removed; the rules
  // are tried in order and only the first whose type matches applies.

  const CategoryRules: seq<(MachineType, set<Setting>)> := [
    (Treadmill, {Resistance, Power}),
    (CrossTrainer, {Speed, Incline}),
    (IndoorBike, {Speed, Incline}),
    (Rower, {Speed, Incline})]

  /** The settings cleared by the first rule whose machine type is in mt. */
  function FirstMatch(mt: set<MachineType>, rules: seq<(MachineType, set<Setting>)>): set<Setting> {
    if rules == [] then {}
    else if rules[0].0 in mt then rules[0].1
    else FirstMatch(mt, rules[1..])
  }

  /** FirstMatch over CategoryRules, written out as the if/elif chain it stands for. */
  lemma FirstMatchChain(mt: set<MachineType>)
    ensures FirstMatch(mt, CategoryRules) ==
      if Treadmill in mt then {Resistance, Power}
      else if CrossTrainer in mt || IndoorBike in mt || Rower in mt then {Speed, Incline}
      else {}
  {
    var r0 := CategoryRules;
    var r1, r2, r3, r4 := r0[1..], r0[2..], r0[3..], r0[4..];
    assert r1 == r0[1..] && r2 == r1[1..] && r3 == r2[1..] && r4 == r3[1..] && r4 == [];
    assert FirstMatch(mt, r3) == if Rower in mt then {Speed, Incline} else FirstMatch(mt, r4);
    assert FirstMatch(mt, r2) == if IndoorBike in mt then {Speed, Incline} else FirstMatch(mt, r3);
    assert FirstMatch(mt, r1) == if CrossTrainer in mt then {Speed, Incline} else FirstMatch(mt, r2);
    assert FirstMatch(mt, r0) == if Treadmill in mt then {Resistance, Power} else FirstMatch(mt, r1);
  }

  /**
   * Phase 2: the if/elif chain of removals, treadmill first, then cross
   * trainer, indoor bike and rower; with no matching type nothing changes.
   */
  function CategoryPrune(s: set<Setting>, mt: set<MachineType>): (r: set<Setting>)
    ensures r ==
      if Treadmill in mt then s - {Resistance, Power}
      else if CrossTrainer in mt then s - {Speed, Incline}
      else if IndoorBike in mt then s - {Speed, Incline}
      else if Rower in mt then s - {Speed, Incline}
      else s
  {
    FirstMatchChain(mt);
    s - FirstMatch(mt, CategoryRules)
  }

  /** Both phases: the usable target settings. */
  function Negotiate(raw: set<Setting>, present: Presence, mt: set<MachineType>): (r: set<Setting>)
    ensures r <= raw
    ensures forall s | s !in RangeBearing :: s in r <==> s in raw
    ensures forall t | t in Table && t.setting in r :: present(t.uuid)
    ensures Treadmill in mt ==> Resistance !in r && Power !in r
    ensures Treadmill !in mt && (CrossTrainer in mt || IndoorBike in mt || Rower in mt) ==>
              Speed !in r && Incline !in r
  {
    CategoryPrune(PresencePrune(raw, present), mt)
  }

  /** Negotiating an already negotiated set changes nothing. */
  lemma NegotiateIdempotent(raw: set<Setting>, present: Presence, mt: set<MachineType>)
    ensures Negotiate(Negotiate(raw, present, mt), present, mt) == Negotiate(raw, present, mt)
  {
    var once := Negotiate(raw, present, mt);
    TableWellFormed();
    forall s ensures s in Negotiate(once, present, mt) <==> s in once {
      if s in RangeBearing {
        var t :| t in Table && t.setting == s;
      }
    }
  }

  /** What read_features returns for a device. */
  function Discover(present: Presence, read: Reader, mt: set<MachineType>): (r: Result<Capabilities>)
    ensures !present(FeatureUuid) ==> r == Err(CharacteristicNotFound)
    ensures present(FeatureUuid) && read(FeatureUuid).Err? ==> r == Err(read(FeatureUuid).error)
    ensures r.Ok? <==> present(FeatureUuid) && read(FeatureUuid).Ok? && DecodeFeatureRecord(read(FeatureUuid).value).Ok?
    ensures r.Ok? ==> r.value.features == DecodeFeatureRecord(read(FeatureUuid).value).value.features
    ensures r.Ok? ==> r.value.settings <= DecodeFeatureRecord(read(FeatureUuid).value).value.settings
    ensures r.Ok? ==> r.value.settings == Negotiate(DecodeFeatureRecord(read(FeatureUuid).value).value.settings, present, mt)
  {
    if !present(FeatureUuid) then Err(CharacteristicNotFound)
    else
      var data :- read(FeatureUuid);
      var raw :- DecodeFeatureRecord(data);
      Ok(Capabilities(raw.features, Negotiate(raw.settings, present, mt)))
  }

  /** First section of read_features: drop settings whose range characteristic is absent. */
  method RemoveSettingsWithoutRanges(raw: set<Setting>, present: Presence) returns (settings: set<Setting>)
    ensures settings == PresencePrune(raw, present)
  {
    settings := raw;
    if Speed in settings {
      if !present(SpeedRangeUuid) {
        settings := settings - {Speed};
      }
    }
    assert settings == raw - (if present(SpeedRangeUuid) then {} else {Speed});
    if Incline in settings {
      if !present(InclinationRangeUuid) {
        settings := settings - {Incline};
      }
    }
    assert settings == raw - (if present(SpeedRangeUuid) then {} else {Speed})
                           - (if present(InclinationRangeUuid) then {} else {Incline});
    if Resistance in settings {
      if !present(ResistanceLevelRangeUuid) {
        settings := settings - {Resistance};
      }
    }
    assert settings == raw - (if present(SpeedRangeUuid) then {} else {Speed})
                           - (if present(InclinationRangeUuid) then {} else {Incline})
                           - (if present(ResistanceLevelRangeUuid) then {} else {Resistance});
    if Power in settings {
      if !present(PowerRangeUuid) {
        settings := settings - {Power};
      }
    }
    assert settings == raw - (if present(SpeedRangeUuid) then {} else {Speed})
                           - (if present(InclinationRangeUuid) then {} else {Incline})
                           - (if present(ResistanceLevelRangeUuid) then {} else {Resistance})
                           - (if present(PowerRangeUuid) then {} else {Power});
    if HeartRate in settings {
      if !present(HeartRateRangeUuid) {
        settings := settings - {HeartRate};
      }
    }
    PresencePruneByEntry(raw, present);
  }

  /** Second section of read_features: drop settings atypical for the machine type. */
  method RemoveUntypicalSettings(pruned: set<Setting>, mt: set<MachineType>) returns (settings: set<Setting>)
    ensures settings == CategoryPrune(pruned, mt)
  {
    settings := pruned;
    if Treadmill in mt {
      settings := settings - {Resistance, Power};
    } else if CrossTrainer in mt {
      settings := settings - {Speed, Incline};
    } else if IndoorBike in mt {
      settings := settings - {Speed, Incline};
    } else if Rower in mt {
      settings := settings - {Speed, Incline};
    }
  }

  /** read_features: fetch and decode the Feature record, then narrow the settings. */
  method ReadFeatures(present: Presence, read: Reader, mt: set<MachineType>) returns (r: Result<Capabilities>)
    ensures r == Discover(present, read, mt)
  {
    if !present(FeatureUuid) {
      return Err(CharacteristicNotFound);
    }
    var data :- read(FeatureUuid);
    var record :- DecodeFeatureRecord(data);
    var settings := RemoveSettingsWithoutRanges(record.settings, present);
    settings := RemoveUntypicalSettings(settings, mt);
    return Ok(Capabilities(record.features, settings));
  }
}
