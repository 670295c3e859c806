/**
 * The backend-instance record of the routing table (`ServerConfig`), the
 * instance descriptors delivered by the membership feed, the metadata keys
 * that carry a protocol range and a group, and the parsing of one descriptor
 * into a record.
 */
module ServerConfigs {
  import opened JavaTypes

  /** Metadata key of the lowest protocol id an instance serves. */
  const PROTO_MIN_ID: string := "min"
  /** Metadata key of the highest protocol id an instance serves. */
  const PROTO_MAX_ID: string := "max"
  /** Metadata key of the instance's server group. */
  const GROUP_ID: string := "g"

  /**
   * One backend instance as the routing table stores it.  Nothing requires
   * `minProtoId <= maxProtoId`.
   */
  datatype ServerConfig = ServerConfig(
    groupId: int32,
    serverId: int32,
    host: string,
    port: int32,
    minProtoId: int32,
    maxProtoId: int32)

  /** One instance descriptor of the membership feed. */
  datatype Instance = Instance(
    instanceId: string,
    ip: string,
    port: int32,
    healthy: bool,
    metadata: map<string, string>)

  /** A NumberFormatException; `input` is None when the parsed string was null. */
  datatype NumberFormatError = NumberFormatError(input: Option<string>)

  /** `Map.get`: the value under `key`, or null. */
  function MetadataGet(metadata: map<string, string>, key: string): (r: Option<string>)
    ensures r.Some? <==> key in metadata
    ensures r.Some? ==> r.value == metadata[key]
  {
    if key in metadata then Some(metadata[key]) else None
  }

  /** `Integer.parseInt` applied to a possibly null string. */
  function ParseNullable(s: Option<string>): (r: Result<int32, NumberFormatError>)
    ensures r.Ok? <==> s.Some? && ParseInt(s.value).Some?
    ensures r.Ok? ==> ParseInt(s.value) == Some(r.value)
    ensures r.Err? ==> r.error.input == s
  {
    match s
    case None => Err(NumberFormatError(None))
    case Some(str) =>
      match ParseInt(str)
      case None => Err(NumberFormatError(s))
      case Some(v) => Ok(v)
  }

  /**
   * The record built from one admitted descriptor: "max", "min" and "g" are
   * parsed from the metadata in that order, then the instance id becomes the
   * server id; the first value that does not parse is the exception thrown.
   */
  function ToServerConfig(inst: Instance): (r: Result<ServerConfig, NumberFormatError>)
    ensures r.Ok? <==>
      && ParseNullable(MetadataGet(inst.metadata, PROTO_MAX_ID)).Ok?
      && ParseNullable(MetadataGet(inst.metadata, PROTO_MIN_ID)).Ok?
      && ParseNullable(MetadataGet(inst.metadata, GROUP_ID)).Ok?
      && ParseInt(inst.instanceId).Some?
    ensures r.Ok? ==>
      && Some(r.value.serverId) == ParseInt(inst.instanceId)
      && Some(r.value.minProtoId) == ParseInt(inst.metadata[PROTO_MIN_ID])
      && Some(r.value.maxProtoId) == ParseInt(inst.metadata[PROTO_MAX_ID])
      && Some(r.value.groupId) == ParseInt(inst.metadata[GROUP_ID])
      && r.value.host == inst.ip
      && r.value.port == inst.port
    ensures ParseNullable(MetadataGet(inst.metadata, PROTO_MAX_ID)).Err? ==>
      r.Err? && r.error.input == MetadataGet(inst.metadata, PROTO_MAX_ID)
    ensures && ParseNullable(MetadataGet(inst.metadata, PROTO_MAX_ID)).Ok?
            && ParseNullable(MetadataGet(inst.metadata, PROTO_MIN_ID)).Err? ==>
      r.Err? && r.error.input == MetadataGet(inst.metadata, PROTO_MIN_ID)
    ensures && ParseNullable(MetadataGet(inst.metadata, PROTO_MAX_ID)).Ok?
            && ParseNullable(MetadataGet(inst.metadata, PROTO_MIN_ID)).Ok?
            && ParseNullable(MetadataGet(inst.metadata, GROUP_ID)).Err? ==>
      r.Err? && r.error.input == MetadataGet(inst.metadata, GROUP_ID)
    ensures && ParseNullable(MetadataGet(inst.metadata, PROTO_MAX_ID)).Ok?
            && ParseNullable(MetadataGet(inst.metadata, PROTO_MIN_ID)).Ok?
            && ParseNullable(MetadataGet(inst.metadata, GROUP_ID)).Ok?
            && ParseInt(inst.instanceId).None? ==>
      r.Err? && r.error.input == Some(inst.instanceId)
  {
    match ParseNullable(MetadataGet(inst.metadata, PROTO_MAX_ID))
    case Err(e) => Err(e)
    case Ok(protoMaxId) =>
      match ParseNullable(MetadataGet(inst.metadata, PROTO_MIN_ID))
      case Err(e) => Err(e)
      case Ok(protoMinId) =>
        match ParseNullable(MetadataGet(inst.metadata, GROUP_ID))
        case Err(e) => Err(e)
        case Ok(groupId) =>
          match ParseNullable(Some(inst.instanceId))
          case Err(e) => Err(e)
          case Ok(serverId) =>
            Ok(ServerConfig(groupId, serverId, inst.ip, inst.port, protoMinId, protoMaxId))
  }
}
