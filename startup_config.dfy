/**
 * The configuration a client is started with, and its JSON form: the `to_jopp_value` and
 * `to_jopp_object` overloads of src/client_ctl/startup_config.hpp. Paths are their string form.
 *
 * The source only writes these objects; each writer is paired here with a proof that it loses
 * nothing, i.e. that different configurations give different objects.
 */
module StartupConfig {
  import opened Json

  /** A `host_address`: the only alternative is a connected stream socket given by its descriptor. */
  datatype HostAddress = SocketFd(fd: int)

  /** A `host_info`: where the host is. */
  datatype HostInfo = HostInfo(address: HostAddress)

  /** A `local_config`: which file feeds which input ports, and which files each output port writes. */
  datatype LocalConfig = LocalConfig(inputs: map<string, seq<string>>, outputs: map<string, seq<string>>)

  /** A `startup_config`: run connected to a host, or stand alone. */
  datatype Config = ConnectedToHost(host: HostInfo) | Standalone(local: LocalConfig)

  /** `to_jopp_value(socket_fd_ref)`: the descriptor as a number. */
  function SocketFdToJson(fd: int): (v: Value)
    ensures v.Number? && v.n == fd
  {
    Number(fd)
  }

  /** `to_jopp_object(host_address)`: {"type": "socket_fd", "value": fd}. */
  function HostAddressToJson(a: HostAddress): (obj: Object)
    ensures obj.Keys == {"type", "value"}
    ensures obj["type"] == Str("socket_fd") && obj["value"] == SocketFdToJson(a.fd)
  {
    map["type" := Str("socket_fd"), "value" := SocketFdToJson(a.fd)]
  }

  /** `to_jopp_object(host_info)`: {"address": <address object>}. */
  function HostInfoToJson(h: HostInfo): (obj: Object)
    ensures obj.Keys == {"address"} && obj["address"] == Object(HostAddressToJson(h.address))
  {
    map["address" := Object(HostAddressToJson(h.address))]
  }

  /**
   * `to_jopp_object(file_input_port_map)` and `to_jopp_object(output_port_file_map)`: one key per
   * key of the map (a path, resp. a port name), holding the array of its strings in their order.
   */
  function StringListMapToJson(m: map<string, seq<string>>): (obj: Object)
    ensures obj.Keys == m.Keys
    ensures forall k :: k in m ==> obj[k] == Array(Strings(m[k]))
  {
    map k | k in m :: Array(Strings(m[k]))
  }

  /** `to_jopp_object(local_config)`: {"inputs": ..., "outputs": ...}. */
  function LocalConfigToJson(c: LocalConfig): (obj: Object)
    ensures obj.Keys == {"inputs", "outputs"}
    ensures obj["inputs"] == Object(StringListMapToJson(c.inputs))
    ensures obj["outputs"] == Object(StringListMapToJson(c.outputs))
  {
    map["inputs" := Object(StringListMapToJson(c.inputs)), "outputs" := Object(StringListMapToJson(c.outputs))]
  }

  /** `operational_mode_info<T>::name`. */
  function OperationalMode(c: Config): (name: string)
    ensures c.ConnectedToHost? <==> name == "connected_to_host"
    ensures c.Standalone? <==> name == "standalone"
  {
    match c
    case ConnectedToHost(_) => "connected_to_host"
    case Standalone(_) => "standalone"
  }

  /** `to_jopp_object(startup_config)`: {"operational_mode": name, "parameters": <the alternative's object>}. */
  function ConfigToJson(c: Config): (obj: Object)
    ensures obj.Keys == {"operational_mode", "parameters"}
    ensures obj["operational_mode"] == Str(OperationalMode(c))
    ensures c.ConnectedToHost? ==> obj["parameters"] == Object(HostInfoToJson(c.host))
    ensures c.Standalone? ==> obj["parameters"] == Object(LocalConfigToJson(c.local))
  {
    var parameters := match c
      case ConnectedToHost(h) => HostInfoToJson(h)
      case Standalone(l) => LocalConfigToJson(l);
    map["operational_mode" := Str(OperationalMode(c)), "parameters" := Object(parameters)]
  }

  /** Different maps give different objects: the keys, and every list with its order, are kept. */
  lemma {:induction false} StringListMapToJsonInjective(a: map<string, seq<string>>, b: map<string, seq<string>>)
    requires StringListMapToJson(a) == StringListMapToJson(b)
    ensures a == b
  {
    forall k | k in a
      ensures k in b && a[k] == b[k]
    {
      assert StringListMapToJson(a)[k] == StringListMapToJson(b)[k];
      StringsInjective(a[k], b[k]);
    }
  }

  /** Different configurations give different objects. */
  lemma {:induction false} ConfigToJsonInjective(a: Config, b: Config)
    requires ConfigToJson(a) == ConfigToJson(b)
    ensures a == b
  {
    assert ConfigToJson(a)["operational_mode"] == ConfigToJson(b)["operational_mode"];
    assert ConfigToJson(a)["parameters"] == ConfigToJson(b)["parameters"];
    if a.Standalone? {
      var la, lb := LocalConfigToJson(a.local), LocalConfigToJson(b.local);
      assert la["inputs"] == lb["inputs"] && la["outputs"] == lb["outputs"];
      StringListMapToJsonInjective(a.local.inputs, b.local.inputs);
      StringListMapToJsonInjective(a.local.outputs, b.local.outputs);
    } else {
      assert HostInfoToJson(a.host)["address"] == HostInfoToJson(b.host)["address"];
      assert HostAddressToJson(a.host.address)["value"] == HostAddressToJson(b.host.address)["value"];
    }
  }
}
