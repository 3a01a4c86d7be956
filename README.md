# Capability discovery of a Fitness Machine Service client

This project models how the pyftms client finds out what a Bluetooth
fitness machine can do. It covers `pyftms/client/properties/features.py`:

- **Strict flag decoding.** The 8-byte Fitness Machine Feature
  characteristic holds two little-endian 32-bit words. They are the
  machine features (section 4.3.1.1 of the Fitness Machine Service
  specification) and the target-setting features (section 4.3.1.2). Each
  word becomes a flag set of 17 members at bit positions 0..16. A word
  with any bit at position 17 or above is refused.
- **Negotiation (`read_features`).** Phase 1 drops speed, inclination,
  resistance, power and heart rate when the device lacks that setting's
  range characteristic. Phase 2 is an if/elif chain over the machine
  type. A treadmill loses resistance and power. Otherwise a cross
  trainer, indoor bike or rower loses speed and inclination.
- **Range decoding (`read_supported_ranges` and its inner `_range`).** In
  a fixed order, each surviving range-bearing setting has its range
  characteristic read. The range is exactly three fixed-point values
  (minimum, maximum, step) in that setting's format: speed `u2.01`,
  inclination and resistance `s2.1`, power `s2`, heart rate `u1`. A short
  buffer and a buffer with bytes left over are both failures.
- **`SettingRange`** is an exact triple of reals.
- **`MovementDirection`** is the strict two-value enumeration 0/1.

The transport is passed in as two functions:

- `Presence` (`Uuid -> bool`) stands in for the `get_characteristic(...) is None` test.
- `Reader` (`Uuid -> Result<Bytes>`) stands in for `read_gatt_char`.

A failing read is passed on unchanged. Both `assert` statements in the
source become explicit failure results: the 8-byte length check (`FeatureLength`) and the
nothing-left check after a range (`TrailingData`). The
`CharacteristicNotFound` raise becomes an error value too. Every failure
aborts discovery.

The code declares 17 members in each flag class, so the valid mask is
`0x1FFFF`.

Layout:

- `errors.dfy`: the error values and `Result`.
- `fixed_point.dfy`: little-endian fixed-point numbers.
- `flags.dfy`: strict flag decoding over an ordered member list (`Bitfield`), the two flag classes built on it, and `MovementDirection`.
- `device.dfy`: characteristic identifiers, machine types and the target table.
- `features.dfy`: `read_features`.
- `ranges.dfy`: `read_supported_ranges` and `_range`.
- `scenarios.dfy`: the two steps together, plus worked examples.

Each imperative part of the source is a method. The method is proved
equal to a specification function, and the properties are proved about
that function:

- `RemoveSettingsWithoutRanges` narrows a local set through the five ifs of phase 1.
- `RemoveUntypicalSettings` is the if/elif chain of phase 2.
- `ReadFeatures` is `read_features` itself.
- `ParseRange` advances a cursor through three values, then insists the buffer is exhausted.
- `ReadSupportedRanges` fills the result map through the five ifs, in source order.

The specification functions are `PresencePrune`, `CategoryPrune`,
`Discover`, `DecodeRange` and `SupportedRanges`. `SupportedRanges` is a
left fold over the target table that stops at the first failure.

## Model

| member | source | states |
|---|---|---|
| FixedPoint.LeUnsigned | pyftms/client/properties/features.py:153-156 | the little-endian unsigned value of n bytes, least significant byte first, lies below 256^n |
| FixedPoint.LeBytes | pyftms/client/properties/features.py:153-156 | the n little-endian bytes of a value below 256^n have that value |
| FixedPoint.LeBytesOfUnsigned | pyftms/client/properties/features.py:153-156 | an n-byte buffer is recovered from its little-endian value |
| FixedPoint.DecodeInt | pyftms/client/properties/features.py:231-232 | a format's bytes decode to an integer within the format's range, negative exactly when the format is signed and the top bit is set (two's complement) |
| FixedPoint.EncodeInt | pyftms/client/properties/features.py:231-232 | every integer in a format's range has an encoding of the format's width that decodes back to it |
| FixedPoint.EncodeDecodeInt | pyftms/client/properties/features.py:231-232 | decoding loses nothing: re-encoding a decoded integer gives the original bytes |
| FixedPoint.ScaledInjective | pyftms/client/properties/features.py:232 | scaling by the format's decimal exponent maps different raw integers to different values |
| Bitfield.FromBitsOf | pyftms/client/properties/features.py:45-128 | a number below 2^n is rebuilt from its n bits |
| Bitfield.BitsOfFromBits | pyftms/client/properties/features.py:45-128 | a bit sequence is the bits of the number it stands for |
| Bitfield.WidthBound | pyftms/client/properties/features.py:52-85 | 17 declared members give the value bound 0x20000, so the member mask is 0x1FFFF |
| Bitfield.StrictIffNoHighBit | pyftms/client/properties/features.py:45 | a 32-bit word is accepted by a strict flag class exactly when none of bits 17..31 is set |
| Bitfield.MembersIndex | pyftms/client/properties/features.py:45-128 | with no repeated member, the member at index i is decoded exactly when bit i is set |
| Bitfield.Decode | pyftms/client/properties/features.py:45-128 | strict construction fails with the class's error exactly when a bit above the declared members is set; otherwise it holds exactly the declared members whose bits are set, and its value is the input |
| Bitfield.DecodeValue | pyftms/client/properties/features.py:45-128 | every set of declared members is rebuilt from its integer value |
| MachineFeatures.Position | pyftms/client/properties/features.py:52-85 | each feature owns the bit given by its declaration order |
| MachineFeatures.PositionInjective | pyftms/client/properties/features.py:52-85 | distinct features own distinct bits |
| MachineFeatures.OrderWellFormed | pyftms/client/properties/features.py:52-85 | the class declares 17 features, none twice |
| MachineFeatures.FromWord | pyftms/client/properties/features.py:45-85 | strict construction succeeds exactly when the value is below 2^17, fails naming the value otherwise; a feature is in the set exactly when its bit is set, so the set's value is the input |
| MachineFeatures.FromValue | pyftms/client/properties/features.py:45-85 | every feature set is rebuilt from its integer value |
| MachineSettings.Position | pyftms/client/properties/features.py:95-128 | each setting owns the bit given by its declaration order |
| MachineSettings.PositionInjective | pyftms/client/properties/features.py:95-128 | distinct settings own distinct bits |
| MachineSettings.OrderWellFormed | pyftms/client/properties/features.py:95-128 | the class declares 17 settings, none twice |
| MachineSettings.FromWord | pyftms/client/properties/features.py:88-128 | strict construction succeeds exactly when the value is below 2^17, fails naming the value otherwise; a setting is in the set exactly when its bit is set, so the set's value is the input |
| MachineSettings.FromValue | pyftms/client/properties/features.py:88-128 | every setting set is rebuilt from its integer value |
| MovementDirection.FromInt | pyftms/client/properties/features.py:32-42 | only 0 and 1 name a direction (forward, backward); any other value is refused |
| MovementDirection.FromToInt | pyftms/client/properties/features.py:32-42 | every direction is rebuilt from its integer |
| Targets.TableWellFormed | pyftms/client/properties/features.py:237-250 | the five targets have valid formats, distinct settings, characteristics and keys, cover exactly the range-bearing settings, and never name the Feature characteristic |
| Features.Word | pyftms/client/properties/features.py:153-156 | a u4 word of the record is the little-endian value of its four bytes |
| Features.DecodeFeatureRecord | pyftms/client/properties/features.py:151-156 | a record not of 8 bytes is refused; otherwise features are bytes 0..3 and settings bytes 4..7, each read strictly, features first, and the decoded sets have exactly those values |
| Features.EncodeFeatureRecord | pyftms/client/properties/features.py:151-156 | the record a device sends is 8 bytes |
| Features.DecodeEncodeRecord | pyftms/client/properties/features.py:151-156 | decoding an encoded record gives back the capabilities |
| Features.EncodeDecodeRecord | pyftms/client/properties/features.py:151-156 | every record that decodes is the encoding of its result: no bit is masked |
| Features.Pow2Of32 | pyftms/client/properties/features.py:153-156 | a u4 word spans 2^32 values, so its bits are positions 0..31 |
| Features.WordStrictIffNoHighBits | pyftms/client/properties/features.py:153-156 | a u4 word is accepted by a strict flag class exactly when none of its bits 17..31 is set |
| Features.RecordStrictIffNoHighBits | pyftms/client/properties/features.py:151-156 | an 8-byte record is accepted exactly when neither u4 word has any bit 17..31 set |
| Features.AbsentByEntry | pyftms/client/properties/features.py:160-198 | the absent range-bearing settings, one table entry at a time |
| Features.AbsentMembers | pyftms/client/properties/features.py:160-198 | a table setting is absent exactly when its range characteristic is missing; only range-bearing settings are ever absent |
| Features.PresencePrune | pyftms/client/properties/features.py:160-198 | phase 1 only narrows; a range-bearing setting survives exactly when it was advertised and its range characteristic is present; the other 12 settings are untouched |
| Features.PresencePruneByEntry | pyftms/client/properties/features.py:160-198 | phase 1 equals the five removals in source order |
| Features.FirstMatchChain | pyftms/client/properties/features.py:202-212 | the first matching category rule is the if/elif chain: treadmill first, then cross trainer, indoor bike, rower |
| Features.CategoryPrune | pyftms/client/properties/features.py:202-212 | phase 2 is the if/elif chain, first match only: a treadmill loses resistance and power; otherwise a cross trainer, indoor bike or rower loses speed and inclination; with no matching type nothing changes |
| Features.Negotiate | pyftms/client/properties/features.py:160-212 | both phases only narrow, leave non-range settings alone, keep only settings whose range is present, and give a treadmill no resistance or power and the other three categories no speed or inclination |
| Features.NegotiateIdempotent | pyftms/client/properties/features.py:160-212 | negotiating a negotiated set changes nothing |
| Features.Discover | pyftms/client/properties/features.py:142-217 | an absent Feature characteristic is `CharacteristicNotFound`; a read failure is passed on; success exactly when the record decodes; features unchanged, and settings are the raw ones negotiated, hence a subset of them |
| Features.RemoveSettingsWithoutRanges | pyftms/client/properties/features.py:160-198 | the five in-place removals compute phase 1 |
| Features.RemoveUntypicalSettings | pyftms/client/properties/features.py:202-212 | the if/elif chain of removals computes phase 2 |
| Features.ReadFeatures | pyftms/client/properties/features.py:142-217 | read_features returns what Discover specifies, errors included |
| Ranges.DecodeRange | pyftms/client/properties/features.py:228-235 | a range buffer is accepted exactly when it holds three values; fewer bytes is `Truncated`, more is `TrailingData` |
| Ranges.EncodeRange | pyftms/client/properties/features.py:228-235 | a device's range buffer is three values wide |
| Ranges.DecodeEncodeRange | pyftms/client/properties/features.py:228-235 | decoding an encoded range gives the three scaled values in order: minimum, maximum, step |
| Ranges.RawValue | pyftms/client/properties/features.py:231-232 | each of the three raw values lies in the format's range |
| Ranges.EncodeDecodeRange | pyftms/client/properties/features.py:228-235 | every buffer of three values is the encoding of its raw values, and decodes to them scaled |
| Ranges.FetchRange | pyftms/client/properties/features.py:228-235 | _range passes on a read failure and decodes the bytes otherwise |
| Ranges.DecodeRangeLeading | pyftms/client/properties/features.py:231-234 | the three values read through the cursor are the decoded range of a buffer of exactly three values |
| Ranges.ParseRange | pyftms/client/properties/features.py:231-235 | the cursor loop over three values, and the check that nothing is left, compute DecodeRange |
| Ranges.ReadRange | pyftms/client/properties/features.py:228-235 | _range computes FetchRange |
| Ranges.RangesFromSucceeds | pyftms/client/properties/features.py:237-250 | reading ranges succeeds exactly when every requested range can be fetched |
| Ranges.RangesFromKeys | pyftms/client/properties/features.py:237-250 | a successful read has exactly the keys of the requested targets, added to those already present |
| Ranges.RangesFromValues | pyftms/client/properties/features.py:237-250 | each requested key is bound to its fetched range, and keys no target writes are kept |
| Ranges.RangesFromFirstFailure | pyftms/client/properties/features.py:237-250 | a failure is the error of the first requested target whose range cannot be fetched, all earlier requested targets having succeeded |
| Ranges.SupportedRangesSpec | pyftms/client/properties/features.py:220-254 | read_supported_ranges succeeds exactly when every present range-bearing setting's range is fetched; its keys are then exactly those settings' keys, each bound to its decoded range |
| Ranges.RequestedMembers | pyftms/client/properties/features.py:237-250 | a target's characteristic is requested exactly when its setting is present, and only table characteristics are requested |
| Ranges.RequestedOrder | pyftms/client/properties/features.py:237-250 | requests go in the order speed, inclination, resistance, power, heart rate, one per present setting |
| Ranges.ReadsArePrefix | pyftms/client/properties/features.py:237-250 | the characteristics read are a prefix of the requests |
| Ranges.ReadsAll | pyftms/client/properties/features.py:237-250 | when reading ranges succeeds, every request is read, in order |
| Ranges.ReadSupportedRanges | pyftms/client/properties/features.py:220-254 | the five ifs filling the map compute SupportedRanges, and the characteristics read are those ReadsFrom lists |
| Scenarios.NegotiatedRanges | pyftms/client/properties/features.py:142-254 | ranges of a negotiated set: one per negotiated range-bearing setting, only for present characteristics, and never for a setting the machine type excludes |
| Scenarios.ZeroWords | pyftms/client/properties/features.py:45-128 | a zero word is the empty set in both flag classes |
| Scenarios.AllZeroRecordDecodes | pyftms/client/properties/features.py:151-156 | eight zero bytes decode to no features and no settings |
| Scenarios.NoSettingsNoRanges | pyftms/client/properties/features.py:220-254 | with no settings, nothing is read and the range map is empty |
| Scenarios.AllZeroRecord | pyftms/client/properties/features.py:142-254 | an all-zero record gives no features, no settings and no ranges |
| Scenarios.LowThreeSettings | pyftms/client/properties/features.py:95-100 | the word 7 is {speed, incline, resistance} |
| Scenarios.SpeedInclineResistanceRecord | pyftms/client/properties/features.py:151-156 | a record with settings bits 0..2 decodes to speed, incline and resistance |
| Scenarios.IndoorBikeLosesEverything | pyftms/client/properties/features.py:160-212 | an indoor bike with only the speed range present ends with no target settings: incline and resistance go in phase 1, speed in phase 2 |
| Scenarios.PowerRangeExample | pyftms/client/properties/features.py:246-247 | power bytes 00 00 64 00 01 00 are the range 0 to 100 in steps of 1 |
| Scenarios.HeartRateRangeExample | pyftms/client/properties/features.py:249-250 | heart-rate bytes 28 C8 01 are the range 40 to 200 in steps of 1 |
| Scenarios.InclinationRangeExample | pyftms/client/properties/features.py:240-241 | inclination bytes C4 FF 96 00 05 00 are the signed range -6.0 to 15.0 in steps of 0.5 |
| Scenarios.HeartRateRangeLength | pyftms/client/properties/features.py:228-235 | a heart-rate range with a byte too many is trailing data, and with a byte too few it is truncated |
| Scenarios.UndefinedSettingBitExample | pyftms/client/properties/features.py:151-156 | a settings word with bit 17 set is refused, naming the word 0x20000 |

## Left out

- `pyftms/client/client.py` is not part of this model. It holds the connection lifecycle, notifications, commands and caching over BLE libraries.
- The number serializer is not part of this model. Only the width, signedness and decimal scale of each format string are modelled. A buffer shorter than the values need is the failure `Truncated`.
- The `or 0` after each range value maps a falsy value to 0. It is the identity in the model, since a decoded integer is never absent and 0 already maps to 0.
- A Python `assert` vanishes when the interpreter runs with optimisation. The model always treats the two asserts as failures.
- Ranges hold exact reals rather than binary floating point.
- Logging, `async`/`await` and the read-only `MappingProxyType` wrapper carry no meaning here and are left out.
- The UUID and key strings are opaque distinct constructors.
- `MachineType` is defined outside features.py (imported at features.py:27). It is modelled as a set of the four members the code tests: treadmill, cross trainer, indoor bike and rower.
- The read log of `ReadSupportedRanges` is a ghost out-parameter. It records which characteristics are read and in what order; nothing in the source stores it.
- Raising and catching exceptions become `Result` values. Which Python exception type each failure raises is not modelled.
- Ranges.ReadSupportedRanges: the order of the reads is stated through the ghost log. Because the log is ghost, that part of its contract is not a runtime output.
