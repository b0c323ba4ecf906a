/**
 * Log items and their JSON form: `to_jopp_object` and `make_log_item` of
 * src/json_log/item_converter.hpp (src/json_log_writer/writer.hpp:15-25 holds the same
 * `to_jopp_object`, returned behind a `unique_ptr`; it is modelled once, here).
 *
 * A log item's time stamp is a whole number of seconds since the epoch; the source writes it as
 * a `double` count of seconds and reads it back through `duration<double>`.
 */
module LogItem {
  import W = Wrappers
  import opened Json

  datatype Severity = Info | Warning | Error

  /** `to_string(severity)`. */
  function SeverityName(s: Severity): (name: string)
    ensures name in {"info", "warning", "error"}
  {
    match s
    case Info => "info"
    case Warning => "warning"
    case Error => "error"
  }

  /** `make_severity(name)`: a name that is not one of the three gives `info`. */
  function MakeSeverity(name: string): (s: Severity)
    ensures name !in {"info", "warning", "error"} ==> s == Info
  {
    if name == "warning" then Warning
    else if name == "error" then Error
    else Info
  }

  /** The name of a severity reads back as that severity, so different severities have different names. */
  lemma {:induction false} SeverityNameRoundTrip(s: Severity)
    ensures MakeSeverity(SeverityName(s)) == s
    ensures forall t: Severity :: SeverityName(t) == SeverityName(s) ==> t == s
  {
    match s
    case Info =>
    case Warning =>
    case Error =>
  }

  /** A `log::item`: when it was written (whole seconds since the epoch), its severity and its message. */
  datatype Item = Item(when: int, severity: Severity, message: string)

  /**
   * `to_jopp_object(item)`: an object with exactly the keys "when", "message" and "severity"; the
   * message is copied and the severity is written by name.
   */
  function ToJoppObject(item: Item): (obj: Object)
    ensures obj.Keys == {"when", "message", "severity"}
    ensures obj["when"] == Number(item.when)
    ensures obj["message"] == Str(item.message)
    ensures obj["severity"] == Str(SeverityName(item.severity))
  {
    map["when" := Number(item.when), "message" := Str(item.message), "severity" := Str(SeverityName(item.severity))]
  }

  /** The error text of a field `make_log_item` cannot extract. */
  function MissingField(name: string): string
  {
    "Failed to extract mandatory field `" + name + "` from received log item"
  }

  /**
   * `make_log_item(obj)`: reads "when", then "severity", then "message". A field that is missing
   * or holds another kind of value fails with the text naming it; a missing message is reported
   * with the text that names `severity`, as src/json_log/item_converter.test.cpp:78-90 expects.
   * Keys other than these three are ignored.
   */
  function MakeLogItem(obj: Object): (r: W.Result<Item, string>)
    ensures r.Success? <==>
      GetNumber(obj, "when").Some? && GetString(obj, "severity").Some? && GetString(obj, "message").Some?
    ensures GetNumber(obj, "when").None? ==> r == W.Failure(MissingField("when"))
    ensures GetNumber(obj, "when").Some? && GetString(obj, "severity").None? ==> r == W.Failure(MissingField("severity"))
    ensures GetNumber(obj, "when").Some? && GetString(obj, "severity").Some? && GetString(obj, "message").None? ==>
      r == W.Failure(MissingField("severity"))
    ensures r.Success? ==>
      && obj["when"] == Number(r.value.when)
      && obj["message"] == Str(r.value.message)
      && r.value.severity == MakeSeverity(obj["severity"].s)
  {
    match GetNumber(obj, "when")
    case None => W.Failure(MissingField("when"))
    case Some(when) =>
      match GetString(obj, "severity")
      case None => W.Failure(MissingField("severity"))
      case Some(severity) =>
        match GetString(obj, "message")
        case None => W.Failure(MissingField("severity"))
        case Some(message) => W.Success(Item(when, MakeSeverity(severity), message))
  }

  /** Reading back the object written for an item gives that item. */
  lemma {:induction false} LogItemRoundTrip(item: Item)
    ensures MakeLogItem(ToJoppObject(item)) == W.Success(item)
  {
    SeverityNameRoundTrip(item.severity);
  }

  /** Only the three keys matter: objects that agree on them read the same. */
  lemma {:induction false} MakeLogItemReadsThreeKeys(a: Object, b: Object)
    requires forall k :: k in {"when", "severity", "message"} ==> (k in a <==> k in b) && (k in a ==> a[k] == b[k])
    ensures MakeLogItem(a) == MakeLogItem(b)
  {
    assert GetNumber(a, "when") == GetNumber(b, "when");
    assert GetString(a, "severity") == GetString(b, "severity");
    assert GetString(a, "message") == GetString(b, "message");
  }
}
