/**
 * The two reading steps together, and worked examples on concrete devices.
 */
module Scenarios {
  import opened Errors
  import opened FixedPoint
  import opened Device
  import opened Bitfield
  import MachineFeatures
  import opened MachineSettings
  import opened Targets
  import opened Features
  import opened Ranges

  /**
   * Reading the ranges of the negotiated settings yields ranges only for
   * characteristics the device has, and never for settings the machine
   * category rules out; when every read succeeds it yields exactly one
   * range per negotiated range-bearing setting.
   */
  lemma NegotiatedRanges(present: Presence, read: Reader, mt: set<MachineType>)
    requires Discover(present, read, mt).Ok?
    ensures var c := Discover(present, read, mt).value;
      var r := SupportedRanges(c.settings, read);
      r.Ok? ==>
        && (forall t | t in Table :: t.key in r.value <==> t.setting in c.settings)
        && (forall t | t in Table && t.key in r.value :: present(t.uuid))
        && (Treadmill in mt ==> TargetResistance !in r.value && TargetPower !in r.value)
        && (Treadmill !in mt && (CrossTrainer in mt || IndoorBike in mt || Rower in mt) ==>
              TargetSpeed !in r.value && TargetInclination !in r.value)
  {
    var c := Discover(present, read, mt).value;
    var r := SupportedRanges(c.settings, read);
    SupportedRangesSpec(c.settings, read);
    TableWellFormed();
    if r.Ok? {
      var keys := set t | t in Table && t.setting in c.settings :: t.key;
      assert r.value.Keys == keys;
      forall t | t in Table ensures t.key in r.value <==> t.setting in c.settings {
        if t.key in keys {
          var u :| u in Table && u.setting in c.settings && u.key == t.key;
          assert u == t;
        }
      }
      assert ResistanceTarget in Table && PowerTarget in Table;
      assert SpeedTarget in Table && InclinationTarget in Table;
    }
  }

  /** A bit sequence with no bit set is the number zero. */
  lemma {:induction false} FromBitsNone(b: seq<bool>)
    requires forall i | 0 <= i < |b| :: !b[i]
    ensures FromBits(b) == 0
  {
    if b != [] {
      FromBitsNone(b[1..]);
    }
  }

  /** A zero word is the empty flag set in both classes. */
  lemma ZeroWords()
    ensures MachineFeatures.FromWord(0) == Ok({})
    ensures MachineSettings.FromWord(0) == Ok({})
  {
    FromBitsNone(Flags(MachineFeatures.Order, {}));
    MachineFeatures.FromValue({});
    FromBitsNone(Flags(MachineSettings.Order, {}));
    MachineSettings.FromValue({});
  }

  /** The little-endian value of four bytes. */
  lemma LeFour(a: byte, b: byte, c: byte, d: byte)
    ensures LeUnsigned([a, b, c, d]) == a + 0x100 * b + 0x1_0000 * c + 0x100_0000 * d
  {
    var bs: Bytes := [a, b, c, d];
    assert bs[1..] == [b, c, d] && bs[1..][1..] == [c, d] && bs[1..][1..][1..] == [d] && bs[1..][1..][1..][1..] == [];
    assert LeUnsigned([d]) == d;
    assert LeUnsigned([c, d]) == c + 0x100 * d;
    assert LeUnsigned([b, c, d]) == b + 0x100 * c + 0x1_0000 * d;
  }

  /** An all-zero Feature record decodes to no features and no target settings. */
  lemma AllZeroRecordDecodes(data: Bytes)
    requires |data| == 8 && forall i | 0 <= i < 8 :: data[i] == 0
    ensures DecodeFeatureRecord(data) == Ok(Capabilities({}, {}))
  {
    assert Word(data, 0) == 0 && Word(data, 4) == 0 by {
      assert data[0..4] == [0, 0, 0, 0] && data[4..8] == [0, 0, 0, 0];
      LeFour(0, 0, 0, 0);
    }
    ZeroWords();
  }

  /** With no target settings no range is read and the range map is empty. */
  lemma NoSettingsNoRanges(read: Reader)
    ensures SupportedRanges({}, read) == Ok(map[])
    ensures ReadsFrom({}, read, Table, []) == []
  {
    SupportedRangesSpec({}, read);
    TableFormats();
    ReadsArePrefix({}, read, Table, []);
    RequestedOrder({});
    assert [] + Requested({}, Table) == [];
  }

  /** A device whose Feature record is all zero: no features, no target settings, no ranges. */
  lemma AllZeroRecord(present: Presence, read: Reader, mt: set<MachineType>)
    requires present(FeatureUuid) && read(FeatureUuid).Ok?
    requires var data := read(FeatureUuid).value; |data| == 8 && forall i | 0 <= i < 8 :: data[i] == 0
    ensures Discover(present, read, mt) == Ok(Capabilities({}, {}))
    ensures SupportedRanges({}, read) == Ok(map[])
  {
    AllZeroRecordDecodes(read(FeatureUuid).value);
    assert Negotiate({}, present, mt) == {};
    NoSettingsNoRanges(read);
  }

  /** The word holding only bits 0, 1 and 2 is {Speed, Incline, Resistance}. */
  lemma LowThreeSettings()
    ensures MachineSettings.FromWord(7) == Ok({Speed, Incline, Resistance})
  {
    var s := {Speed, Incline, Resistance};
    var b := Flags(MachineSettings.Order, s);
    assert b[0] && b[1] && b[2];
    FromBitsNone(b[3..]);
    assert b[1..][1..][1..] == b[3..];
    assert FromBits(b) == 1 + 2 * FromBits(b[1..]);
    assert FromBits(b[1..]) == 1 + 2 * FromBits(b[1..][1..]);
    assert FromBits(b[1..][1..]) == 1 + 2 * FromBits(b[3..]);
    MachineSettings.FromValue(s);
  }

  /** A Feature record whose only set bits are the settings word's bits 0, 1 and 2. */
  lemma SpeedInclineResistanceRecord(data: Bytes)
    requires |data| == 8 && data[4] == 7 && forall i | 0 <= i < 8 && i != 4 :: data[i] == 0
    ensures DecodeFeatureRecord(data) == Ok(Capabilities({}, {Speed, Incline, Resistance}))
  {
    assert Word(data, 0) == 0 && Word(data, 4) == 7 by {
      assert data[0..4] == [0, 0, 0, 0] && data[4..8] == [7, 0, 0, 0];
      LeFour(0, 0, 0, 0);
      LeFour(7, 0, 0, 0);
    }
    ZeroWords();
    LowThreeSettings();
  }

  /**
   * An indoor bike advertising speed, inclination and resistance, with only
   * the speed range present: inclination and resistance go for lack of a
   * range, then speed for the bike's category, leaving no target settings.
   */
  lemma IndoorBikeLosesEverything(present: Presence, read: Reader, mt: set<MachineType>)
    requires IndoorBike in mt && Treadmill !in mt
    requires present(FeatureUuid) && present(SpeedRangeUuid)
    requires !present(InclinationRangeUuid) && !present(ResistanceLevelRangeUuid)
    requires read(FeatureUuid).Ok?
    requires var data := read(FeatureUuid).value;
      |data| == 8 && data[4] == 7 && forall i | 0 <= i < 8 && i != 4 :: data[i] == 0
    ensures Discover(present, read, mt) == Ok(Capabilities({}, {}))
  {
    SpeedInclineResistanceRecord(read(FeatureUuid).value);
    var raw := DecodeFeatureRecord(read(FeatureUuid).value).value.settings;
    var pruned := PresencePrune(raw, present);
    assert pruned <= {Speed} by {
      PresencePruneByEntry(raw, present);
    }
    assert Negotiate(raw, present, mt) == {} by {
      assert CategoryPrune(pruned, mt) == pruned - {Speed, Incline};
    }
  }

  /** A power range of 0 to 100 W in steps of 1 W. */
  lemma PowerRangeExample()
    ensures DecodeRange(PowerFormat, [0x00, 0x00, 0x64, 0x00, 0x01, 0x00]) == Ok(SettingRange(0.0, 100.0, 1.0))
  {
    var data: Bytes := [0x00, 0x00, 0x64, 0x00, 0x01, 0x00];
    assert data[..2] == [0x00, 0x00] && data[2..4] == [0x64, 0x00] && data[4..] == [0x01, 0x00];
  }

  /** A heart-rate range of 40 to 200 bpm in steps of 1 bpm. */
  lemma HeartRateRangeExample()
    ensures DecodeRange(HeartRateFormat, [0x28, 0xC8, 0x01]) == Ok(SettingRange(40.0, 200.0, 1.0))
  {
    var data: Bytes := [0x28, 0xC8, 0x01];
    assert data[..1] == [0x28] && data[1..2] == [0xC8] && data[2..] == [0x01];
  }

  /** An inclination range of -6.0 % to 15.0 % in steps of 0.5 %: signed values, one decimal. */
  lemma InclinationRangeExample()
    ensures DecodeRange(InclinationFormat, [0xC4, 0xFF, 0x96, 0x00, 0x05, 0x00]) == Ok(SettingRange(-6.0, 15.0, 0.5))
  {
    var data: Bytes := [0xC4, 0xFF, 0x96, 0x00, 0x05, 0x00];
    assert data[..2] == [0xC4, 0xFF] && data[2..4] == [0x96, 0x00] && data[4..] == [0x05, 0x00];
  }

  /** One byte too many in a heart-rate range is trailing data, one too few a truncated read. */
  lemma HeartRateRangeLength()
    ensures DecodeRange(HeartRateFormat, [0x28, 0xC8, 0x01, 0x00]) == Err(TrailingData)
    ensures DecodeRange(HeartRateFormat, [0x28, 0xC8]) == Err(Truncated)
  {
  }

  /** A settings word with bit 17 set is refused, naming the word. */
  lemma UndefinedSettingBitExample(data: Bytes)
    requires |data| == 8 && data[6] == 2 && forall i | 0 <= i < 8 && i != 6 :: data[i] == 0
    ensures DecodeFeatureRecord(data) == Err(UndefinedSettingBits(0x2_0000))
  {
    assert LeUnsigned(data[..4]) == 0 && LeUnsigned(data[4..]) == 0x2_0000 by {
      assert data[..4] == [0, 0, 0, 0] && data[4..] == [0, 0, 2, 0];
      LeFour(0, 0, 0, 0);
      LeFour(0, 0, 2, 0);
    }
    assert Strict(0) && !Strict(0x2_0000) by {
      WidthBound();
    }
  }
}
