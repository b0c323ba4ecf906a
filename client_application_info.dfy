/**
 * The descriptions of client applications and their ports, and their JSON form:
 * src/client_ctl/client_application_info.hpp.
 *
 * A value the source cannot extract makes jopp throw; the model names the key it could not
 * extract, or says that some entry of a port map did not hold a port description.
 */
module ClientCtl {
  import opened Wrappers
  import opened Json

  /** Why a conversion from JSON failed: a field that is missing or holds another kind of value. */
  datatype ConvError = FieldNotExtracted(key: string) | InvalidPortInfo

  /** A `port_info`: the content type a port expects or promises. */
  datatype PortInfo = PortInfo(streamContentType: string)

  /** A `client_application_info`. */
  datatype ClientApplicationInfo = ClientApplicationInfo(
    displayName: string, inputs: map<string, PortInfo>, outputs: map<string, PortInfo>)

  /** `to_jopp_object(port_info)`: {"stream_content_type": s}. */
  function PortInfoToJson(p: PortInfo): (obj: Object)
    ensures obj.Keys == {"stream_content_type"} && obj["stream_content_type"] == Str(p.streamContentType)
  {
    map["stream_content_type" := Str(p.streamContentType)]
  }

  /** `make_port_info(obj)`: reads "stream_content_type". */
  function MakePortInfo(obj: Object): (r: Result<PortInfo, ConvError>)
    ensures r.Success? <==> GetString(obj, "stream_content_type").Some?
    ensures r.Success? ==> obj["stream_content_type"] == Str(r.value.streamContentType)
    ensures r.Failure? ==> r.error == FieldNotExtracted("stream_content_type")
  {
    match GetString(obj, "stream_content_type")
    case None => Failure(FieldNotExtracted("stream_content_type"))
    case Some(s) => Success(PortInfo(s))
  }

  /** `to_jopp_object(port_info_map)`: one key per port name, holding that port's object. */
  function PortInfoMapToJson(m: map<string, PortInfo>): (obj: Object)
    ensures obj.Keys == m.Keys
    ensures forall name :: name in m ==> obj[name] == Object(PortInfoToJson(m[name]))
  {
    map name | name in m :: Object(PortInfoToJson(m[name]))
  }

  /** An entry `make_port_info_map` accepts: an object that `make_port_info` reads. */
  predicate IsPortInfo(v: Value)
  {
    v.Object? && MakePortInfo(v.fields).Success?
  }

  /**
   * `make_port_info_map(obj)`: every entry must be an object holding a port description; the
   * result has the same keys.
   */
  function MakePortInfoMap(obj: Object): (r: Result<map<string, PortInfo>, ConvError>)
    ensures r.Success? <==> forall name :: name in obj ==> IsPortInfo(obj[name])
    ensures r.Success? ==> r.value.Keys == obj.Keys
    ensures r.Success? ==> forall name :: name in obj ==> MakePortInfo(obj[name].fields) == Success(r.value[name])
  {
    if forall name :: name in obj ==> IsPortInfo(obj[name]) then
      Success(map name | name in obj :: MakePortInfo(obj[name].fields).value)
    else
      Failure(InvalidPortInfo)
  }

  /** `to_jopp_object(client_application_info)`: keys "display_name", "inputs" and "outputs". */
  function ClientApplicationInfoToJson(c: ClientApplicationInfo): (obj: Object)
    ensures obj.Keys == {"display_name", "inputs", "outputs"}
    ensures obj["display_name"] == Str(c.displayName)
    ensures obj["inputs"] == Object(PortInfoMapToJson(c.inputs))
    ensures obj["outputs"] == Object(PortInfoMapToJson(c.outputs))
  {
    map["display_name" := Str(c.displayName),
        "inputs" := Object(PortInfoMapToJson(c.inputs)),
        "outputs" := Object(PortInfoMapToJson(c.outputs))]
  }

  /**
   * Reads a client description, taking the output ports from `outputsKey`, in the order the
   * initialisers run: "display_name", then "inputs" and its port map, then `outputsKey` and its map.
   */
  function ReadClientApplicationInfo(obj: Object, outputsKey: string): (r: Result<ClientApplicationInfo, ConvError>)
    ensures GetString(obj, "display_name").None? ==> r == Failure(FieldNotExtracted("display_name"))
    ensures GetString(obj, "display_name").Some? && GetObject(obj, "inputs").None? ==>
      r == Failure(FieldNotExtracted("inputs"))
    ensures (GetString(obj, "display_name").Some? && GetObject(obj, "inputs").Some?
             && MakePortInfoMap(obj["inputs"].fields).Failure?) ==> r == Failure(MakePortInfoMap(obj["inputs"].fields).error)
    ensures (GetString(obj, "display_name").Some? && GetObject(obj, "inputs").Some?
             && MakePortInfoMap(obj["inputs"].fields).Success? && GetObject(obj, outputsKey).None?) ==>
      r == Failure(FieldNotExtracted(outputsKey))
    ensures r.Success? ==>
      && obj["display_name"] == Str(r.value.displayName)
      && MakePortInfoMap(obj["inputs"].fields) == Success(r.value.inputs)
      && MakePortInfoMap(obj[outputsKey].fields) == Success(r.value.outputs)
  {
    match GetString(obj, "display_name")
    case None => Failure(FieldNotExtracted("display_name"))
    case Some(name) =>
      match GetObject(obj, "inputs")
      case None => Failure(FieldNotExtracted("inputs"))
      case Some(inputs) =>
        match MakePortInfoMap(inputs)
        case Failure(e) => Failure(e)
        case Success(ins) =>
          match GetObject(obj, outputsKey)
          case None => Failure(FieldNotExtracted(outputsKey))
          case Some(outputs) =>
            match MakePortInfoMap(outputs)
            case Failure(e) => Failure(e)
            case Success(outs) => Success(ClientApplicationInfo(name, ins, outs))
  }

  /** `make_client_application_info(obj)` as written: the output ports are read from "output". */
  function MakeClientApplicationInfoAsWritten(obj: Object): (r: Result<ClientApplicationInfo, ConvError>)
    ensures (GetString(obj, "display_name").Some? && GetObject(obj, "inputs").Some?
             && MakePortInfoMap(obj["inputs"].fields).Success? && "output" !in obj) ==> r == Failure(FieldNotExtracted("output"))
  {
    ReadClientApplicationInfo(obj, "output")
  }

  /** `make_client_application_info(obj)` reading the output ports from "outputs", the key the writer uses. */
  function MakeClientApplicationInfo(obj: Object): (r: Result<ClientApplicationInfo, ConvError>)
    ensures r.Success? ==> "outputs" in obj && obj["outputs"].Object? && MakePortInfoMap(obj["outputs"].fields) == Success(r.value.outputs)
  {
    ReadClientApplicationInfo(obj, "outputs")
  }

  /** A port description reads back as itself. */
  lemma {:induction false} PortInfoRoundTrip(p: PortInfo)
    ensures MakePortInfo(PortInfoToJson(p)) == Success(p)
  {
  }

  /** A port map reads back as itself: the same names, each with the same description. */
  lemma {:induction false} PortInfoMapRoundTrip(m: map<string, PortInfo>)
    ensures MakePortInfoMap(PortInfoMapToJson(m)) == Success(m)
  {
    var obj := PortInfoMapToJson(m);
    forall name | name in obj
      ensures IsPortInfo(obj[name]) && MakePortInfo(obj[name].fields).value == m[name]
    {
      PortInfoRoundTrip(m[name]);
    }
    assert (map name | name in obj :: MakePortInfo(obj[name].fields).value) == m;
  }

  /** With the output ports read from "outputs", a client description reads back as itself. */
  lemma {:induction false} ClientApplicationInfoRoundTrip(c: ClientApplicationInfo)
    ensures MakeClientApplicationInfo(ClientApplicationInfoToJson(c)) == Success(c)
  {
    PortInfoMapRoundTrip(c.inputs);
    PortInfoMapRoundTrip(c.outputs);
  }

  /**
   * As written, no client description reads back: the object written for it has no key "output",
   * so reading it always fails there.
   */
  lemma {:induction false} ClientApplicationInfoAsWrittenNeverRoundTrips(c: ClientApplicationInfo)
    ensures MakeClientApplicationInfoAsWritten(ClientApplicationInfoToJson(c)) == Failure(FieldNotExtracted("output"))
  {
  }
}
