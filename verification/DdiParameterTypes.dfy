/** The driver's parameter types by name: the numbers they have in the driver's header, and
    the type that the decoder reads each of them as. */
module DdiParameterTypes {
  import AppConfig
  import opened DdiPacking

  datatype Name =
    | DeviceType | RangingRoundUsage | StsConfig | MultiNodeMode | ChannelNumber | NumberOfControlees
    | DeviceMacAddress | DstMacAddress | SlotDuration | RangingInterval | StsIndex | MacFcsType
    | RangingRoundControl | AoaResultReq | RangeDataNtfConfig | RangeDataNtfProximityNear
    | RangeDataNtfProximityFar | DeviceRole | RframeConfig | PreambleCodeIndex | SfdId | PsduDataRate
    | PreambleDuration | RangingTimeStruct | SlotsPerRr | TxAdaptivePayloadPower | ResponderSlotIndex
    | PrfMode | ScheduledMode | KeyRotation | KeyRotationRate | SessionPriority | MacAddressMode | VendorId
    | StaticStsIv | NumberOfStsSegments | MaxRrRetry | UwbInitiationTime | HoppingMode | BlockStrideLength
    | ResultReportConfig | InBandTerminationAttemptCount | SubSessionId | BprfPhrDataRate
    | MaxNumberOfMeasurements | StsLength

  /** The header numbers its enumerators one after the other, and starts anew five times. */
  const FROM_00: seq<Name> := [
    DeviceType, RangingRoundUsage, StsConfig, MultiNodeMode, ChannelNumber, NumberOfControlees, DeviceMacAddress,
    DstMacAddress, SlotDuration, RangingInterval, StsIndex, MacFcsType, RangingRoundControl, AoaResultReq,
    RangeDataNtfConfig, RangeDataNtfProximityNear, RangeDataNtfProximityFar, DeviceRole, RframeConfig]
  const FROM_14: seq<Name> := [PreambleCodeIndex, SfdId, PsduDataRate, PreambleDuration]
  const FROM_1A: seq<Name> := [RangingTimeStruct, SlotsPerRr, TxAdaptivePayloadPower]
  const FROM_1E: seq<Name> := [ResponderSlotIndex, PrfMode]
  const FROM_22: seq<Name> := [
    ScheduledMode, KeyRotation, KeyRotationRate, SessionPriority, MacAddressMode, VendorId, StaticStsIv,
    NumberOfStsSegments, MaxRrRetry, UwbInitiationTime, HoppingMode, BlockStrideLength, ResultReportConfig,
    InBandTerminationAttemptCount, SubSessionId, BprfPhrDataRate, MaxNumberOfMeasurements]
  const FROM_35: seq<Name> := [StsLength]

  predicate Numbered(name: Name, typ: nat) {
    || (typ < |FROM_00| && FROM_00[typ] == name)
    || (0x14 <= typ < 0x14 + |FROM_14| && FROM_14[typ - 0x14] == name)
    || (0x1A <= typ < 0x1A + |FROM_1A| && FROM_1A[typ - 0x1A] == name)
    || (0x1E <= typ < 0x1E + |FROM_1E| && FROM_1E[typ - 0x1E] == name)
    || (0x22 <= typ < 0x22 + |FROM_22| && FROM_22[typ - 0x22] == name)
    || (0x35 <= typ < 0x35 + |FROM_35| && FROM_35[typ - 0x35] == name)
  }

  /** The decoder's switch. The two enumerations without an underlying type of one octet are
      those of the channel and of the scheduled mode. */
  function DecodedAs(name: Name): Kind {
    match name
    case HoppingMode => FlagKind
    case NumberOfControlees | PreambleCodeIndex | SfdId | SlotsPerRr | ResponderSlotIndex | KeyRotationRate
      | SessionPriority | NumberOfStsSegments | BlockStrideLength | InBandTerminationAttemptCount => NumberKind(1)
    case SlotDuration | RangeDataNtfProximityNear | RangeDataNtfProximityFar | VendorId | MaxRrRetry
      | MaxNumberOfMeasurements => NumberKind(2)
    case RangingInterval | StsIndex | UwbInitiationTime | SubSessionId => NumberKind(4)
    case ChannelNumber | ScheduledMode => EnumeratorKind(4)
    case ResultReportConfig => ReportsKind
    case DeviceMacAddress => AddressKind
    case StaticStsIv => VectorKind
    case DstMacAddress => AddressesKind
    case _ => EnumeratorKind(1)
  }

  lemma {:induction false} FirstTypes(typ: nat)
    requires typ < 0x07
    ensures KindOf(typ) == DecodedAs(FROM_00[typ])
  {
  }

  lemma {:induction false} SecondTypes(typ: nat)
    requires 0x07 <= typ < 0x0D
    ensures KindOf(typ) == DecodedAs(FROM_00[typ])
  {
  }

  lemma {:induction false} ThirdTypes(typ: nat)
    requires 0x0D <= typ < 0x13
    ensures KindOf(typ) == DecodedAs(FROM_00[typ])
  {
  }

  lemma {:induction false} FourthTypes(i: nat)
    requires i < 4
    ensures KindOf(0x14 + i) == DecodedAs(FROM_14[i])
  {
  }

  lemma {:induction false} FifthTypes(i: nat)
    requires i < 3
    ensures KindOf(0x1A + i) == DecodedAs(FROM_1A[i])
  {
  }

  lemma {:induction false} SixthTypes(i: nat)
    requires i < 2
    ensures KindOf(0x1E + i) == DecodedAs(FROM_1E[i])
  {
  }

  lemma {:induction false} SeventhTypes(i: nat)
    requires i < 6
    ensures KindOf(0x22 + i) == DecodedAs(FROM_22[i])
  {
  }

  lemma {:induction false} EighthTypes(i: nat)
    requires 6 <= i < 12
    ensures KindOf(0x22 + i) == DecodedAs(FROM_22[i])
  {
  }

  lemma {:induction false} NinthTypes(i: nat)
    requires 12 <= i < 17
    ensures KindOf(0x22 + i) == DecodedAs(FROM_22[i])
  {
  }

  /** Every type is decoded as what the decoder has for its name. */
  lemma {:induction false} KindsByName(name: Name, typ: nat)
    requires Numbered(name, typ)
    ensures KindOf(typ) == DecodedAs(name)
  {
    hide *;
    NumberedInBlock(name, typ);
    if typ < 0x07 {
      FirstTypes(typ);
    } else if typ < 0x0D {
      SecondTypes(typ);
    } else if typ < 0x14 {
      ThirdTypes(typ);
    } else if typ < 0x1A {
      FourthTypes(typ - 0x14);
    } else if typ < 0x1E {
      FifthTypes(typ - 0x1A);
    } else if typ < 0x22 {
      SixthTypes(typ - 0x1E);
    } else if typ < 0x28 {
      SeventhTypes(typ - 0x22);
    } else if typ < 0x2E {
      EighthTypes(typ - 0x22);
    } else if typ < 0x33 {
      NinthTypes(typ - 0x22);
    } else {
      LastType();
    }
  }

  lemma {:induction false} NumberedInBlock(name: Name, typ: nat)
    requires Numbered(name, typ)
    ensures |FROM_00| == 0x13 && |FROM_14| == 4 && |FROM_1A| == 3 && |FROM_1E| == 2 && |FROM_22| == 17 && |FROM_35| == 1
    ensures typ < 0x14 ==> typ < 0x13 && FROM_00[typ] == name
    ensures 0x14 <= typ < 0x1A ==> typ < 0x18 && FROM_14[typ - 0x14] == name
    ensures 0x1A <= typ < 0x1E ==> typ < 0x1D && FROM_1A[typ - 0x1A] == name
    ensures 0x1E <= typ < 0x22 ==> typ < 0x20 && FROM_1E[typ - 0x1E] == name
    ensures 0x22 <= typ < 0x33 ==> FROM_22[typ - 0x22] == name
    ensures 0x33 <= typ ==> typ == 0x35 && FROM_35[0] == name
  {
  }

  lemma {:induction false} LastType()
    ensures KindOf(0x35) == DecodedAs(FROM_35[0])
  {
  }

  /** And a number that is no type's is unknown. */
  lemma {:induction false} UnknownIff(typ: nat)
    ensures KindOf(typ) == UnknownKind <==> forall name: Name :: !Numbered(name, typ)
  {
    if KindOf(typ) != UnknownKind {
      var name := NameOf(typ);
    } else if name: Name :| Numbered(name, typ) {
      KindsByName(name, typ);
      hide KindOf, Numbered;
    }
  }

  lemma {:induction false} NameOf(typ: nat) returns (name: Name)
    requires KindOf(typ) != UnknownKind
    ensures Numbered(name, typ)
  {
    name := if typ < 0x14 then FROM_00[typ] else if typ < 0x1A then FROM_14[typ - 0x14]
            else if typ < 0x1E then FROM_1A[typ - 0x1A] else if typ < 0x22 then FROM_1E[typ - 0x1E]
            else if typ < 0x35 then FROM_22[typ - 0x22] else FROM_35[typ - 0x35];
  }

  /** The size that the code's own table of alternatives states for each parameter, but for
      addresses, which have two or eight octets. */
  function StatedSize(name: Name): nat {
    match name
    case SlotDuration | RangeDataNtfProximityNear | RangeDataNtfProximityFar | VendorId | MaxRrRetry
      | MaxNumberOfMeasurements => 2
    case RangingInterval | StsIndex | UwbInitiationTime | SubSessionId => 4
    case StaticStsIv => 6
    case _ => 1
  }

  lemma {:induction false} OctetsOfKind(p: Parameter)
    requires WellTyped(p)
    ensures match KindOf(p.typ)
            case FlagKind | ReportsKind => |EncodedValue(p.value)| == 1
            case NumberKind(w) => |EncodedValue(p.value)| == w
            case EnumeratorKind(w) => |EncodedValue(p.value)| == w
            case VectorKind => |EncodedValue(p.value)| == VECTOR_LENGTH
            case _ => true
  {
    ValueOctets(p.value);
    hide KindOf, EncodedValue;
  }

  lemma {:induction false} StatedByKind(name: Name)
    ensures match DecodedAs(name)
            case FlagKind | ReportsKind => StatedSize(name) == 1
            case NumberKind(w) => StatedSize(name) == w
            case EnumeratorKind(w) => StatedSize(name) == 1 && w == if name in {ChannelNumber, ScheduledMode} then 4 else 1
            case VectorKind => StatedSize(name) == VECTOR_LENGTH
            case AddressKind => name == DeviceMacAddress
            case AddressesKind => name == DstMacAddress
            case UnknownKind => false
    ensures name in {ChannelNumber, ScheduledMode} ==> DecodedAs(name).EnumeratorKind?
  {
  }

  /** A value is written in as many octets as stated, but for the channel and the scheduled
      mode: their enumerations are as wide as an int, and four octets are written. */
  lemma {:induction false} StatedSizeIff(name: Name, p: Parameter)
    requires Numbered(name, p.typ) && WellTyped(p) && name != DeviceMacAddress && name != DstMacAddress
    ensures |EncodedValue(p.value)| == StatedSize(name) <==> name != ChannelNumber && name != ScheduledMode
    ensures name == ChannelNumber || name == ScheduledMode ==> |EncodedValue(p.value)| == 4
  {
    hide *;
    KindsByName(name, p.typ);
    OctetsOfKind(p);
    StatedByKind(name);
  }

  /** The parameters that a session may change while it is active. */
  const WHILE_ACTIVE: set<Name> := {
    BlockStrideLength, RangingInterval, RangeDataNtfConfig, RangeDataNtfProximityNear, RangeDataNtfProximityFar}

  lemma {:induction false} ChangeableByName(name: Name, typ: nat)
    requires Numbered(name, typ)
    ensures AppConfig.ChangeableWhileActive(typ) <==> name in WHILE_ACTIVE
  {
    hide *;
    NumberedInBlock(name, typ);
    if typ < 0x14 {
      LowChangeable(typ);
    } else if typ < 0x22 {
      MiddleUnchangeable(name, typ);
    } else if typ < 0x33 {
      HighChangeable(typ - 0x22);
    } else {
      LastUnchangeable();
    }
  }

  lemma {:induction false} LowChangeable(typ: nat)
    requires typ < 0x13
    ensures AppConfig.ChangeableWhileActive(typ) <==> FROM_00[typ] in WHILE_ACTIVE
  {
  }

  lemma {:induction false} MiddleUnchangeable(name: Name, typ: nat)
    requires Numbered(name, typ) && 0x14 <= typ < 0x22
    ensures !AppConfig.ChangeableWhileActive(typ) && name !in WHILE_ACTIVE
  {
  }

  lemma {:induction false} HighChangeable(i: nat)
    requires i < 17
    ensures AppConfig.ChangeableWhileActive(0x22 + i) <==> FROM_22[i] in WHILE_ACTIVE
  {
  }

  lemma {:induction false} LastUnchangeable()
    ensures !AppConfig.ChangeableWhileActive(0x35) && FROM_35[0] !in WHILE_ACTIVE
  {
  }
}
