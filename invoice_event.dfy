/** `InvoiceEvent` and `InvoiceEventType` of model/src/payment/invoice_event.rs. The event type
    has two codecs that share nothing: strum's short tag (`RECEIVED`, ...) for `to_string` and
    `parse`, and serde's externally tagged JSON form, the bare variant name for a variant without
    payload and a single-key object for the rejected variant. */
module InvoiceEvent {
  import opened Wrappers
  import opened Json

  /** chrono's `DateTime<Utc>`, held as the RFC 3339 text serde writes for it. */
  datatype Timestamp = Timestamp(rfc3339: string)

  /** The payment model's `Rejection`, held as the members of the JSON object serde writes for it. */
  datatype Rejection = Rejection(fields: seq<(string, Json)>)

  datatype InvoiceEventType =
    | InvoiceReceivedEvent
    | InvoiceAcceptedEvent
    | InvoiceRejectedEvent(rejection: Rejection)
    | InvoiceCancelledEvent
    | InvoiceSettledEvent

  datatype InvoiceEvent = InvoiceEvent(invoiceId: string, eventDate: Timestamp, eventType: InvoiceEventType)

  // The strum codec.

  /** `to_string`: the short upper-case tag of each variant. */
  function ToTag(t: InvoiceEventType): string
  {
    match t
    case InvoiceReceivedEvent => "RECEIVED"
    case InvoiceAcceptedEvent => "ACCEPTED"
    case InvoiceRejectedEvent(_) => "REJECTED"
    case InvoiceCancelledEvent => "CANCELLED"
    case InvoiceSettledEvent => "SETTLED"
  }

  /** `str::parse` (strum's `EnumString`): the exact tag, case-sensitive; the rejected variant
      gets the `Default` rejection `default`. */
  function ParseTag(s: string, default: Rejection): (r: Option<InvoiceEventType>)
    ensures r.Some? ==> ToTag(r.value) == s
  {
    if s == "RECEIVED" then Some(InvoiceReceivedEvent)
    else if s == "ACCEPTED" then Some(InvoiceAcceptedEvent)
    else if s == "REJECTED" then Some(InvoiceRejectedEvent(default))
    else if s == "CANCELLED" then Some(InvoiceCancelledEvent)
    else if s == "SETTLED" then Some(InvoiceSettledEvent)
    else None
  }

  // The serde codec.

  /** The variant name serde uses as the JSON tag. */
  function VariantName(t: InvoiceEventType): string
  {
    match t
    case InvoiceReceivedEvent => "InvoiceReceivedEvent"
    case InvoiceAcceptedEvent => "InvoiceAcceptedEvent"
    case InvoiceRejectedEvent(_) => "InvoiceRejectedEvent"
    case InvoiceCancelledEvent => "InvoiceCancelledEvent"
    case InvoiceSettledEvent => "InvoiceSettledEvent"
  }

  /** The payload-less variant called `name`, if there is one. */
  function UnitVariant(name: string): Option<InvoiceEventType>
  {
    if name == "InvoiceReceivedEvent" then Some(InvoiceReceivedEvent)
    else if name == "InvoiceAcceptedEvent" then Some(InvoiceAcceptedEvent)
    else if name == "InvoiceCancelledEvent" then Some(InvoiceCancelledEvent)
    else if name == "InvoiceSettledEvent" then Some(InvoiceSettledEvent)
    else None
  }

  function EncodeRejection(r: Rejection): Json { Object(r.fields) }

  function DecodeRejection(j: Json): Option<Rejection>
  {
    if j.Object? then Some(Rejection(j.members)) else None
  }

  /** serde's JSON for the event type. */
  function EncodeType(t: InvoiceEventType): Json
  {
    match t
    case InvoiceRejectedEvent(r) =>
      Object([("InvoiceRejectedEvent", Object([("rejection", EncodeRejection(r))]))])
    case _ => String(VariantName(t))
  }

  /** The values of the members called `key`. */
  function Occurrences(members: seq<(string, Json)>, key: string): seq<Json>
  {
    if members == [] then []
    else (if members[0].0 == key then [members[0].1] else []) + Occurrences(members[1..], key)
  }

  /** A struct field as serde reads it: present exactly once; a missing or a duplicated field is
      an error, and members with other names are ignored. */
  function Field(members: seq<(string, Json)>, key: string): Option<Json>
  {
    var found := Occurrences(members, key);
    if |found| == 1 then Some(found[0]) else None
  }

  /** The body of the struct variant: an object with a `rejection` field, or the one-element
      sequence form serde also accepts. */
  function DecodeRejectedBody(v: Json): Option<InvoiceEventType>
  {
    match v
    case Object(ms) =>
      (match Field(ms, "rejection")
       case Some(r) =>
         (match DecodeRejection(r)
          case Some(rej) => Some(InvoiceRejectedEvent(rej))
          case None => None)
       case None => None)
    case Array(items) =>
      if |items| == 1 then
        match DecodeRejection(items[0])
        case Some(rej) => Some(InvoiceRejectedEvent(rej))
        case None => None
      else None
    case _ => None
  }

  /** serde's reading of the event type: a bare name for a payload-less variant, or an object
      with exactly one member whose key is the variant name (a payload-less variant then carries
      `null`). */
  function DecodeType(j: Json): Option<InvoiceEventType>
  {
    match j
    case String(name) => UnitVariant(name)
    case Object(ms) =>
      if |ms| != 1 then None
      else if ms[0].0 == "InvoiceRejectedEvent" then DecodeRejectedBody(ms[0].1)
      else if UnitVariant(ms[0].0).Some? && ms[0].1 == Null then UnitVariant(ms[0].0)
      else None
    case _ => None
  }

  /** serde's JSON for an event: the fields in declaration order under their camelCase names. */
  function EncodeEvent(e: InvoiceEvent): Json
  {
    Object([("invoiceId", String(e.invoiceId)),
            ("eventDate", String(e.eventDate.rfc3339)),
            ("eventType", EncodeType(e.eventType))])
  }

  function MakeEvent(id: Json, date: Json, eventType: Json): Option<InvoiceEvent>
  {
    match (id, date, DecodeType(eventType))
    case (String(i), String(d), Some(t)) => Some(InvoiceEvent(i, Timestamp(d), t))
    case _ => None
  }

  /** serde's reading of an event: an object whose three fields appear once each, in any order,
      or the three-element sequence form. */
  function DecodeEvent(j: Json): Option<InvoiceEvent>
  {
    match j
    case Object(ms) =>
      (match (Field(ms, "invoiceId"), Field(ms, "eventDate"), Field(ms, "eventType"))
       case (Some(i), Some(d), Some(t)) => MakeEvent(i, d, t)
       case _ => None)
    case Array(items) =>
      if |items| == 3 then MakeEvent(items[0], items[1], items[2]) else None
    case _ => None
  }

  // Properties.

  /** Parsing a short tag gives back its variant; the rejected variant comes back with the
      default rejection, since the tag carries none. */
  lemma TagRoundTrip(t: InvoiceEventType, default: Rejection)
    ensures ParseTag(ToTag(t), default)
         == Some(if t.InvoiceRejectedEvent? then InvoiceRejectedEvent(default) else t)
  {
  }

  /** The serde codec loses nothing. */
  lemma TypeRoundTrip(t: InvoiceEventType)
    ensures DecodeType(EncodeType(t)) == Some(t)
  {
    if t.InvoiceRejectedEvent? {
      var ms := [("rejection", EncodeRejection(t.rejection))];
      assert Occurrences(ms, "rejection") == [EncodeRejection(t.rejection)];
    }
  }

  /** The short tag and the JSON tag differ for every variant, and neither codec accepts the
      other's tag. */
  lemma CodecsAreIndependent(t: InvoiceEventType, default: Rejection)
    ensures ToTag(t) != VariantName(t)
    ensures ParseTag(VariantName(t), default) == None
    ensures DecodeType(String(ToTag(t))) == None
  {
  }

  lemma OccurrencesOfDistinct(a: string, x: Json, b: string, y: Json, c: string, z: Json)
    requires a != b && b != c && a != c
    ensures Occurrences([(a, x), (b, y), (c, z)], a) == [x]
    ensures Occurrences([(a, x), (b, y), (c, z)], b) == [y]
    ensures Occurrences([(a, x), (b, y), (c, z)], c) == [z]
  {
    var ms := [(a, x), (b, y), (c, z)];
    assert ms[1..] == [(b, y), (c, z)] && ms[1..][1..] == [(c, z)] && ms[1..][1..][1..] == [];
    forall k | k in {a, b, c}
      ensures Occurrences(ms, k) == (if k == a then [x] else []) + (if k == b then [y] else [])
                                    + (if k == c then [z] else [])
    {
      assert Occurrences(ms[1..][1..][1..], k) == [];
      assert Occurrences(ms[1..][1..], k) == (if k == c then [z] else []);
      assert Occurrences(ms[1..], k) == (if k == b then [y] else []) + (if k == c then [z] else []);
    }
    assert a in {a, b, c} && b in {a, b, c} && c in {a, b, c};
  }

  /** Decoding an encoded event yields the original value. */
  lemma EventRoundTrip(e: InvoiceEvent)
    ensures DecodeEvent(EncodeEvent(e)) == Some(e)
  {
    OccurrencesOfDistinct("invoiceId", String(e.invoiceId), "eventDate", String(e.eventDate.rfc3339),
                          "eventType", EncodeType(e.eventType));
    TypeRoundTrip(e.eventType);
  }

  /** The key order of the encoded object does not matter to the decoder. */
  lemma EventFieldOrderFree(e: InvoiceEvent)
    ensures DecodeEvent(Object([("eventType", EncodeType(e.eventType)),
                                ("invoiceId", String(e.invoiceId)),
                                ("eventDate", String(e.eventDate.rfc3339))])) == Some(e)
  {
    OccurrencesOfDistinct("eventType", EncodeType(e.eventType), "invoiceId", String(e.invoiceId),
                          "eventDate", String(e.eventDate.rfc3339));
    TypeRoundTrip(e.eventType);
  }

  lemma VariantNamesArePlain(t: InvoiceEventType)
    ensures IsPlain(VariantName(t))
  {
    var n := VariantName(t);
    assert forall i :: 0 <= i < |n| ==> 'A' <= n[i] <= 'z';
  }

  lemma KeysArePlain()
    ensures IsPlain("invoiceId") && IsPlain("eventDate") && IsPlain("eventType")
    ensures IsPlain("rejection") && IsPlain("InvoiceRejectedEvent")
  {
    var keys := ["invoiceId", "eventDate", "eventType", "rejection", "InvoiceRejectedEvent"];
    assert forall k, i :: k in keys && 0 <= i < |k| ==> 'A' <= k[i] <= 'z';
  }

  /** The text serde writes for an event whose type has no payload (the shape of the
      `test_serialize` case): the three members in declaration order, compact. */
  lemma SerializeEvent(id: string, date: string, t: InvoiceEventType)
    requires IsPlain(id) && IsPlain(date) && !t.InvoiceRejectedEvent?
    ensures Write(EncodeEvent(InvoiceEvent(id, Timestamp(date), t)))
         == "{" + QuotedMember("invoiceId", id) + "," + QuotedMember("eventDate", date) + ","
            + QuotedMember("eventType", VariantName(t)) + "}"
  {
    KeysArePlain();
    VariantNamesArePlain(t);
    WriteObject3("invoiceId", String(id), "eventDate", String(date), "eventType", String(VariantName(t)));
    PlainStringMember("invoiceId", id);
    PlainStringMember("eventDate", date);
    PlainStringMember("eventType", VariantName(t));
  }

  /** The text serde writes for a rejected event type (the shape of the `test_serialize_event`
      case): the variant name, then the `rejection` field holding the rejection's own text. */
  lemma SerializeRejectedEvent(r: Rejection)
    ensures Write(EncodeType(InvoiceRejectedEvent(r)))
         == "{\"" + VariantName(InvoiceRejectedEvent(r)) + "\":"
            + ("{\"" + "rejection" + "\":" + Write(EncodeRejection(r)) + "}") + "}"
  {
    var k1, k2 := VariantName(InvoiceRejectedEvent(r)), "rejection";
    KeysArePlain();
    var inner := Object([(k2, EncodeRejection(r))]);
    WriteSingleton(k2, EncodeRejection(r));
    WriteSingleton(k1, inner);
  }

  /** The value of the `test_deserialize` text decodes to an accepted event. */
  lemma DeserializeAcceptedEvent()
    ensures DecodeEvent(Object([("invoiceId", String("ajdik")),
                                ("eventDate", String("2020-12-21T15:51:21.126645Z")),
                                ("eventType", String("InvoiceAcceptedEvent"))]))
         == Some(InvoiceEvent("ajdik", Timestamp("2020-12-21T15:51:21.126645Z"), InvoiceAcceptedEvent))
  {
    EventRoundTrip(InvoiceEvent("ajdik", Timestamp("2020-12-21T15:51:21.126645Z"), InvoiceAcceptedEvent));
  }

  /** serde also reads a payload-less variant written as a one-member object carrying `null`,
      and nothing else in that position. */
  lemma UnitVariantAsObject(t: InvoiceEventType, v: Json)
    requires !t.InvoiceRejectedEvent?
    ensures DecodeType(Object([(VariantName(t), v)])) == (if v == Null then Some(t) else None)
  {
  }
}
