/**
 * `serialize`: the query string appended to the embed link.  Each property
 * becomes `key=value` with the value (and only the value) passed through
 * `encodeURIComponent`; the fields are joined by `&` and prefixed by `?`.
 * A parser is defined beside it, and `ParseSerialize` proves that it reads
 * a serialized object back.
 */
module QueryString {
  import opened Wrappers
  import opened Strings
  import opened UriEncoding
  import opened JsObject

  function Field(e: Entry): string {
    e.key + "=" + EncodeURIComponent(e.value)
  }

  function Fields(es: seq<Entry>): (r: seq<string>)
    ensures |r| == |es|
    ensures forall i :: 0 <= i < |es| ==> r[i] == Field(es[i])
  {
    if |es| == 0 then [] else [Field(es[0])] + Fields(es[1..])
  }

  /** `serialize(obj)`. */
  function Serialize(o: Object): (r: string)
    ensures |r| >= 1 && r[0] == '?'
    ensures |o| == 0 <==> r == "?"
  {
    var body := Join(Fields(o), "&");
    assert |o| > 0 ==> |body| > 0 by {
      if |o| > 0 {
        JoinFirst(Fields(o), "&");
      }
    }
    "?" + body
  }

  /** A join starts with its first part. */
  lemma {:induction false} JoinFirst(parts: seq<string>, sep: string)
    requires |parts| >= 1
    ensures Join(parts, sep)[..|parts[0]|] == parts[0]
    ensures |Join(parts, sep)| >= |parts[0]|
  {
    if |parts| > 1 {
      assert Join(parts, sep) == parts[0] + (sep + Join(parts[1..], sep));
    }
  }

  // ---------------------------------------------------------------------
  // The query parser

  /** One `key=value` field, the value percent-decoded. */
  function ParseField(f: string): Option<Entry> {
    var kv := Split(f, '=');
    if |kv| != 2 then None
    else
      match DecodeURIComponent(kv[1])
      case None => None
      case Some(v) => Some(Entry(kv[0], v))
  }

  function ParseFields(fs: seq<string>): Option<seq<Entry>>
    decreases |fs|
  {
    if |fs| == 0 then Some([])
    else
      match ParseField(fs[0])
      case None => None
      case Some(e) =>
        match ParseFields(fs[1..])
        case None => None
        case Some(es) => Some([e] + es)
  }

  /** Reads a query string back into its entries, in order. */
  function ParseQuery(q: string): Option<seq<Entry>> {
    if |q| == 0 || q[0] != '?' then None
    else if |q| == 1 then Some([])
    else ParseFields(Split(q[1..], '&'))
  }

  /** A key a query string can carry unambiguously. */
  predicate PlainKey(k: string) {
    '&' !in k && '=' !in k
  }

  lemma {:induction false} FieldSplit(e: Entry)
    requires PlainKey(e.key)
    ensures ParseField(Field(e)) == Some(e)
  {
    var enc := EncodeURIComponent(e.value);
    SplitFree(enc, '=');
    SplitCons(e.key, enc, '=');
    DecodeEncode(e.value);
  }

  lemma {:induction false} ParseFieldsOf(es: seq<Entry>)
    requires forall i :: 0 <= i < |es| ==> PlainKey(es[i].key)
    ensures ParseFields(Fields(es)) == Some(es)
  {
    if |es| > 0 {
      FieldSplit(es[0]);
      ParseFieldsOf(es[1..]);
      assert Fields(es)[1..] == Fields(es[1..]);
      assert [es[0]] + es[1..] == es;
    }
  }

  /**
   * Parsing a serialized object gives back its entries in order, provided
   * no key holds `&` or `=` (keys are not encoded).
   */
  lemma {:induction false} ParseSerialize(o: Object)
    requires forall i :: 0 <= i < |o| ==> PlainKey(o[i].key)
    ensures ParseQuery(Serialize(o)) == Some(o)
  {
    var q := Serialize(o);
    if |o| > 0 {
      var fs := Fields(o);
      assert forall i :: 0 <= i < |fs| ==> '&' !in fs[i];
      SplitJoin(fs, '&');
      assert q[1..] == Join(fs, "&");
      ParseFieldsOf(o);
    }
  }

  /** Serialization is injective on such objects. */
  lemma {:induction false} SerializeInjective(a: Object, b: Object)
    requires forall i :: 0 <= i < |a| ==> PlainKey(a[i].key)
    requires forall i :: 0 <= i < |b| ==> PlainKey(b[i].key)
    requires Serialize(a) == Serialize(b)
    ensures a == b
  {
    ParseSerialize(a);
    ParseSerialize(b);
  }

  /** The default parameters serialize to `?autoplay=1`. */
  lemma SerializeDefault()
    ensures Serialize([Entry("autoplay", "1")]) == "?autoplay=1"
  {
    EncodeUnreserved("1");
  }
}
