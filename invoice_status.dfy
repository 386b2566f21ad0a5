/** `InvoiceStatus` of model/src/payment/invoice_status.rs: a closed enum ordered by declaration,
    written by serde as its upper-cased variant name. `to_string` writes it with serde_json and
    trims the quotes; `From<String>` wraps the text in quotes and reads it back with serde_json,
    panicking when that fails. */
module InvoiceStatus {
  import opened Wrappers
  import Json

  datatype InvoiceStatus = Issued | Received | Accepted | Rejected | Failed | Settled | Cancelled

  /** The variant's name as declared. */
  function VariantName(s: InvoiceStatus): string
  {
    match s
    case Issued => "Issued"
    case Received => "Received"
    case Accepted => "Accepted"
    case Rejected => "Rejected"
    case Failed => "Failed"
    case Settled => "Settled"
    case Cancelled => "Cancelled"
  }

  function UpperChar(c: char): char
  {
    if 'a' <= c <= 'z' then (c as int - 32) as char else c
  }

  /** ASCII upper-casing, serde's `rename_all = "UPPERCASE"`. */
  function Upper(s: string): (r: string)
    ensures |r| == |s|
    ensures forall i :: 0 <= i < |s| ==> r[i] == UpperChar(s[i])
  {
    if s == [] then "" else [UpperChar(s[0])] + Upper(s[1..])
  }

  /** The name serde writes and reads for a variant (`rename_all = "UPPERCASE"`). */
  function SerdeName(s: InvoiceStatus): string
  {
    match s
    case Issued => "ISSUED"
    case Received => "RECEIVED"
    case Accepted => "ACCEPTED"
    case Rejected => "REJECTED"
    case Failed => "FAILED"
    case Settled => "SETTLED"
    case Cancelled => "CANCELLED"
  }

  lemma UpperOf(v: string, u: string)
    requires |v| == |u| && forall i :: 0 <= i < |v| ==> UpperChar(v[i]) == u[i]
    ensures Upper(v) == u
  {
  }

  /** The serde name is the declared name, upper-cased. */
  lemma SerdeNameIsUpper(s: InvoiceStatus)
    ensures SerdeName(s) == Upper(VariantName(s))
  {
    match s
    case Issued => UpperOf("Issued", "ISSUED");
    case Received => UpperOf("Received", "RECEIVED");
    case Accepted => UpperOf("Accepted", "ACCEPTED");
    case Rejected => UpperOf("Rejected", "REJECTED");
    case Failed => UpperOf("Failed", "FAILED");
    case Settled => UpperOf("Settled", "SETTLED");
    case Cancelled => UpperOf("Cancelled", "CANCELLED");
  }

  /** serde's deserializer for the enum: exactly one of the seven names. */
  function FromSerdeName(name: string): Option<InvoiceStatus>
  {
    if name == "ISSUED" then Some(Issued)
    else if name == "RECEIVED" then Some(Received)
    else if name == "ACCEPTED" then Some(Accepted)
    else if name == "REJECTED" then Some(Rejected)
    else if name == "FAILED" then Some(Failed)
    else if name == "SETTLED" then Some(Settled)
    else if name == "CANCELLED" then Some(Cancelled)
    else None
  }

  /** Position in the declaration; the derived `Ord` compares statuses by it. */
  function Rank(s: InvoiceStatus): nat
  {
    match s
    case Issued => 0
    case Received => 1
    case Accepted => 2
    case Rejected => 3
    case Failed => 4
    case Settled => 5
    case Cancelled => 6
  }

  /** The derived `<` on statuses. */
  predicate Less(a: InvoiceStatus, b: InvoiceStatus)
  {
    Rank(a) < Rank(b)
  }

  function TrimStart(s: string, c: char): string
  {
    if s != [] && s[0] == c then TrimStart(s[1..], c) else s
  }

  function TrimEnd(s: string, c: char): string
  {
    if s != [] && s[|s| - 1] == c then TrimEnd(s[..|s| - 1], c) else s
  }

  /** `str::trim_matches(c)`: every leading and trailing `c` removed. */
  function TrimMatches(s: string, c: char): string
  {
    TrimEnd(TrimStart(s, c), c)
  }

  /** `to_string`: serde_json's text for the status with the quotes trimmed, which is the
      upper-cased variant name. */
  function ToString(s: InvoiceStatus): (r: string)
    ensures r == SerdeName(s)
  {
    var name := SerdeName(s);
    NamesArePlain(s);
    Json.EscapePlain(name);
    TrimQuotes(name);
    TrimMatches(Json.Write(Json.String(name)), '"')
  }

  /** `From<InvoiceStatus> for String`: the same text as `to_string`. */
  function IntoString(s: InvoiceStatus): (r: string)
    ensures r == Upper(VariantName(s))
  {
    SerdeNameIsUpper(s);
    ToString(s)
  }

  /** The texts `From<String>` accepts: wrapped in quotes they read, as a JSON string, as one of
      the seven names. JSON escapes are decoded first, so the text need not be a name itself. */
  predicate IsStatusText(value: string)
  {
    match Json.ParseString("\"" + value + "\"")
    case Some(name) => FromSerdeName(name).Some?
    case None => false
  }

  /** `From<String> for InvoiceStatus`; on any other text the source panics. */
  function FromString(value: string): (s: InvoiceStatus)
    requires IsStatusText(value)
    ensures Json.ParseString("\"" + value + "\"") == Some(SerdeName(s))
  {
    var name := Json.ParseString("\"" + value + "\"").value;
    var s := FromSerdeName(name).value;
    SerdeNameInverse(name);
    s
  }

  lemma NamesArePlain(s: InvoiceStatus)
    ensures Json.IsPlain(SerdeName(s))
    ensures |SerdeName(s)| >= 1 && SerdeName(s)[0] != '"' && SerdeName(s)[|SerdeName(s)| - 1] != '"'
  {
    var n := SerdeName(s);
    assert forall i :: 0 <= i < |n| ==> 'A' <= n[i] <= 'Z';
  }

  lemma TrimQuotes(n: string)
    requires |n| >= 1 && n[0] != '"' && n[|n| - 1] != '"'
    ensures TrimMatches("\"" + n + "\"", '"') == n
  {
    var t := "\"" + n + "\"";
    var u := n + "\"";
    assert t[0] == '"' && t[1..] == u;
    assert u[0] == n[0];
    assert TrimStart(u, '"') == u;
    assert u[|u| - 1] == '"' && u[..|u| - 1] == n;
    assert TrimEnd(u, '"') == TrimEnd(n, '"');
    assert n[|n| - 1] != '"';
  }

  lemma SerdeNameInverse(name: string)
    requires FromSerdeName(name).Some?
    ensures SerdeName(FromSerdeName(name).value) == name
  {
    if name == "ISSUED" {} else if name == "RECEIVED" {} else if name == "ACCEPTED" {}
    else if name == "REJECTED" {} else if name == "FAILED" {} else if name == "SETTLED" {}
  }

  lemma FromSerdeNameInverse(s: InvoiceStatus)
    ensures FromSerdeName(SerdeName(s)) == Some(s)
  {
  }

  /** `From<String>` gives back every status from its `to_string` text. */
  lemma FromToString(s: InvoiceStatus)
    ensures IsStatusText(ToString(s)) && FromString(ToString(s)) == s
  {
    var name := SerdeName(s);
    NamesArePlain(s);
    Json.EscapePlain(name);
    Json.ParseWrittenString(name);
    assert Json.Write(Json.String(name)) == "\"" + name + "\"";
    FromSerdeNameInverse(s);
  }

  /** Distinct statuses have distinct texts. */
  lemma ToStringInjective(a: InvoiceStatus, b: InvoiceStatus)
    requires ToString(a) == ToString(b)
    ensures a == b
  {
    FromToString(a);
    FromToString(b);
  }

  /** The derived order is declaration order and is a strict total order. */
  lemma DeclarationOrder()
    ensures Less(Issued, Received) && Less(Received, Accepted) && Less(Accepted, Rejected)
    ensures Less(Rejected, Failed) && Less(Failed, Settled) && Less(Settled, Cancelled)
    ensures forall a, b :: Less(a, b) || a == b || Less(b, a)
    ensures forall a, b :: !(Less(a, b) && Less(b, a))
    ensures forall a, b, c :: Less(a, b) && Less(b, c) ==> Less(a, c)
  {
  }

  lemma ReadPlain(s: string, rest: string)
    requires Json.IsPlain(s)
    ensures Json.ReadString(s + "\"" + rest) == Some((s, rest))
  {
    Json.EscapePlain(s);
    Json.ReadEscaped(s, rest);
  }

  lemma EscapeOfI(t: string)
    requires |t| >= 6 && t[0] == '\\' && t[1] == 'u' && t[2] == '0' && t[3] == '0' && t[4] == '4' && t[5] == '9'
    ensures Json.ReadString(t) == Json.PrependChar('I', Json.ReadString(t[6..]))
  {
    var e := t[1..];
    assert e[1..][0] == '0' && e[1..][1] == '0' && e[1..][2] == '4' && e[1..][3] == '9';
    assert Json.Hex4(e[1..]) == Some(0x49);
    assert Json.ReadEscape(e) == Some(('I', 5));
  }

  /** JSON escapes are decoded before the name is matched: `\u0049SSUED` reads as `ISSUED`. */
  lemma EscapedTextAccepted()
    ensures IsStatusText("\\u0049SSUED") && FromString("\\u0049SSUED") == Issued
  {
    var text := "\"" + "\\u0049SSUED" + "\"";
    var t := text[1..];
    assert t == "\\u0049SSUED" + "\"";
    EscapeOfI(t);
    ReadPlain("SSUED", "");
    assert t[6..] == "SSUED" + "\"" + "";
    assert ['I'] + "SSUED" == "ISSUED";
    assert Json.ParseString(text) == Some("ISSUED");
  }

  /** Texts that are not a name once unescaped make `From<String>` panic, lower case included. */
  lemma LowerCaseRejected()
    ensures !IsStatusText("issued")
  {
    ReadPlain("issued", "");
    assert "issued" + "\"" + "" == "issued\"";
    assert ("\"" + "issued" + "\"")[1..] == "issued\"";
  }
}
