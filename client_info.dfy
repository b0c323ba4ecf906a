/**
 * The older descriptions of clients and their ports, and their JSON form:
 * src/client_ctl/client_info.hpp. A port is described by its `type`; the client description has
 * the same keys as the newer one, and its reader has the same slip.
 */
module LegacyClientCtl {
  import opened Wrappers
  import opened Json
  import C = ClientCtl

  /** The older `port_info`: the type of data on a port. */
  datatype LegacyPortInfo = LegacyPortInfo(portType: string)

  /** The older `client_info`. */
  datatype ClientInfo = ClientInfo(
    displayName: string, inputs: map<string, LegacyPortInfo>, outputs: map<string, LegacyPortInfo>)

  /** `to_jopp_object(port_info)`: {"type": t}. */
  function LegacyPortInfoToJson(p: LegacyPortInfo): (obj: Object)
    ensures obj.Keys == {"type"} && obj["type"] == Str(p.portType)
  {
    map["type" := Str(p.portType)]
  }

  /** `make_port_info(obj)`: reads "type". */
  function MakeLegacyPortInfo(obj: Object): (r: Result<LegacyPortInfo, C.ConvError>)
    ensures r.Success? <==> GetString(obj, "type").Some?
    ensures r.Success? ==> obj["type"] == Str(r.value.portType)
    ensures r.Failure? ==> r.error == C.FieldNotExtracted("type")
  {
    match GetString(obj, "type")
    case None => Failure(C.FieldNotExtracted("type"))
    case Some(t) => Success(LegacyPortInfo(t))
  }

  /** `to_jopp_object(port_info_map)`: one key per port name, holding that port's object. */
  function LegacyPortInfoMapToJson(m: map<string, LegacyPortInfo>): (obj: Object)
    ensures obj.Keys == m.Keys
    ensures forall name :: name in m ==> obj[name] == Object(LegacyPortInfoToJson(m[name]))
  {
    map name | name in m :: Object(LegacyPortInfoToJson(m[name]))
  }

  /** An entry the older `make_port_info_map` accepts. */
  predicate IsLegacyPortInfo(v: Value)
  {
    v.Object? && MakeLegacyPortInfo(v.fields).Success?
  }

  /** `make_port_info_map(obj)`: every entry must be an object with a "type"; the result has the same keys. */
  function MakeLegacyPortInfoMap(obj: Object): (r: Result<map<string, LegacyPortInfo>, C.ConvError>)
    ensures r.Success? <==> forall name :: name in obj ==> IsLegacyPortInfo(obj[name])
    ensures r.Success? ==> r.value.Keys == obj.Keys
    ensures r.Success? ==> forall name :: name in obj ==> MakeLegacyPortInfo(obj[name].fields) == Success(r.value[name])
  {
    if forall name :: name in obj ==> IsLegacyPortInfo(obj[name]) then
      Success(map name | name in obj :: MakeLegacyPortInfo(obj[name].fields).value)
    else
      Failure(C.InvalidPortInfo)
  }

  /** `to_jopp_object(client_info)`: keys "display_name", "inputs" and "outputs". */
  function ClientInfoToJson(c: ClientInfo): (obj: Object)
    ensures obj.Keys == {"display_name", "inputs", "outputs"}
    ensures obj["display_name"] == Str(c.displayName)
    ensures obj["inputs"] == Object(LegacyPortInfoMapToJson(c.inputs))
    ensures obj["outputs"] == Object(LegacyPortInfoMapToJson(c.outputs))
  {
    map["display_name" := Str(c.displayName),
        "inputs" := Object(LegacyPortInfoMapToJson(c.inputs)),
        "outputs" := Object(LegacyPortInfoMapToJson(c.outputs))]
  }

  /**
   * Reads a client description in the order the initialisers run: "display_name", then "inputs"
   * and its port map, then `outputsKey` and its map.
   */
  function ReadClientInfo(obj: Object, outputsKey: string): (r: Result<ClientInfo, C.ConvError>)
    ensures GetString(obj, "display_name").None? ==> r == Failure(C.FieldNotExtracted("display_name"))
    ensures GetString(obj, "display_name").Some? && GetObject(obj, "inputs").None? ==>
      r == Failure(C.FieldNotExtracted("inputs"))
    ensures (GetString(obj, "display_name").Some? && GetObject(obj, "inputs").Some?
             && MakeLegacyPortInfoMap(obj["inputs"].fields).Failure?) ==> r == Failure(MakeLegacyPortInfoMap(obj["inputs"].fields).error)
    ensures (GetString(obj, "display_name").Some? && GetObject(obj, "inputs").Some?
             && MakeLegacyPortInfoMap(obj["inputs"].fields).Success? && GetObject(obj, outputsKey).None?) ==>
      r == Failure(C.FieldNotExtracted(outputsKey))
    ensures r.Success? ==>
      && obj["display_name"] == Str(r.value.displayName)
      && MakeLegacyPortInfoMap(obj["inputs"].fields) == Success(r.value.inputs)
      && MakeLegacyPortInfoMap(obj[outputsKey].fields) == Success(r.value.outputs)
  {
    match GetString(obj, "display_name")
    case None => Failure(C.FieldNotExtracted("display_name"))
    case Some(name) =>
      match GetObject(obj, "inputs")
      case None => Failure(C.FieldNotExtracted("inputs"))
      case Some(inputs) =>
        match MakeLegacyPortInfoMap(inputs)
        case Failure(e) => Failure(e)
        case Success(ins) =>
          match GetObject(obj, outputsKey)
          case None => Failure(C.FieldNotExtracted(outputsKey))
          case Some(outputs) =>
            match MakeLegacyPortInfoMap(outputs)
            case Failure(e) => Failure(e)
            case Success(outs) => Success(ClientInfo(name, ins, outs))
  }

  /** `make_client_info(obj)` as written: the output ports are read from "output". */
  function MakeClientInfoAsWritten(obj: Object): (r: Result<ClientInfo, C.ConvError>)
    ensures (GetString(obj, "display_name").Some? && GetObject(obj, "inputs").Some?
             && MakeLegacyPortInfoMap(obj["inputs"].fields).Success? && "output" !in obj) ==>
      r == Failure(C.FieldNotExtracted("output"))
  {
    ReadClientInfo(obj, "output")
  }

  /** `make_client_info(obj)` reading the output ports from "outputs", the key the writer uses. */
  function MakeClientInfo(obj: Object): (r: Result<ClientInfo, C.ConvError>)
    ensures r.Success? ==> "outputs" in obj && obj["outputs"].Object? && MakeLegacyPortInfoMap(obj["outputs"].fields) == Success(r.value.outputs)
  {
    ReadClientInfo(obj, "outputs")
  }

  /** A port map reads back as itself: the same names, each with the same type. */
  lemma {:induction false} LegacyPortInfoMapRoundTrip(m: map<string, LegacyPortInfo>)
    ensures MakeLegacyPortInfoMap(LegacyPortInfoMapToJson(m)) == Success(m)
  {
    var obj := LegacyPortInfoMapToJson(m);
    forall name | name in obj
      ensures IsLegacyPortInfo(obj[name]) && MakeLegacyPortInfo(obj[name].fields).value == m[name]
    {
      assert obj[name] == Object(LegacyPortInfoToJson(m[name]));
    }
    assert (map name | name in obj :: MakeLegacyPortInfo(obj[name].fields).value) == m;
  }

  /** With the output ports read from "outputs", a client description reads back as itself. */
  lemma {:induction false} ClientInfoRoundTrip(c: ClientInfo)
    ensures MakeClientInfo(ClientInfoToJson(c)) == Success(c)
  {
    LegacyPortInfoMapRoundTrip(c.inputs);
    LegacyPortInfoMapRoundTrip(c.outputs);
  }

  /** As written, no client description reads back: the object written for it has no key "output". */
  lemma {:induction false} ClientInfoAsWrittenNeverRoundTrips(c: ClientInfo)
    ensures MakeClientInfoAsWritten(ClientInfoToJson(c)) == Failure(C.FieldNotExtracted("output"))
  {
  }
}
