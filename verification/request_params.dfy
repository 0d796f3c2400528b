/** `buildRequestParams`: the descriptor's parameters rendered as a JSON
    body or as a `key=value&…` string. */
module RequestParams {
  import opened Wrappers
  import opened Descriptor
  import Strings
  import UrlEncoding

  const Post: string := "POST"
  const Get: string := "GET"
  const ApplicationJson: string := "application/json"
  const FormUrlEncoded: string := "application/x-www-form-urlencoded"

  /** How one value is appended: a string is form-encoded when `needEncode`
      holds and copied otherwise; any other value is appended as its
      `toString()` text, never encoded. */
  function Rendered(v: Value, needEncode: bool): (r: string)
    ensures v.NonText? ==> r == v.rendering
    ensures v.Text? && !needEncode ==> r == v.text
    ensures v.Text? && needEncode ==> UrlEncoding.Decode(r) == Some(v.text)
    ensures v.Text? && needEncode ==> '&' !in r && '=' !in r
  {
    match v
    case NonText(t) => t
    case Text(s) =>
      if needEncode then
        var e := UrlEncoding.Encode(s);
        UrlEncoding.DecodeEncode(s);
        e
      else s
  }

  /** One `key=value` piece. */
  function Entry(p: (string, Value), needEncode: bool): string
  {
    p.0 + "=" + Rendered(p.1, needEncode)
  }

  /** The pieces, in the map's iteration order. */
  function Entries(ps: Params, needEncode: bool): (r: seq<string>)
    ensures |r| == |ps|
  {
    seq(|ps|, i requires 0 <= i < |ps| => Entry(ps[i], needEncode))
  }

  /** What the `StringBuilder` holds after the loop: every piece followed by `&`. */
  function Appended(ps: Params, needEncode: bool): string
  {
    if ps == [] then [] else Entry(ps[0], needEncode) + "&" + Appended(ps[1..], needEncode)
  }

  /** The branch taken: JSON for exactly `POST` with exactly `application/json`. */
  predicate IsJsonBranch(d: ProxyConfig)
    requires ContentTypeReadable(d)
  {
    d.verb == Some(Post) && ContentType(d) == Some(ApplicationJson)
  }

  /** `buildRequestParams`. No parameters give no value; the JSON branch
      gives the serialiser's output, or no value when it throws; otherwise
      the built string with its last character dropped when that is `&`.
      `toJson` is the JSON serialiser. */
  function BuildRequestParams(d: ProxyConfig, toJson: Params -> Option<string>): (r: Option<string>)
    requires HasParams(d) ==> ContentTypeReadable(d)
    ensures !HasParams(d) ==> r.None?
    ensures HasParams(d) && IsJsonBranch(d) ==> r == toJson(d.params.value)
    ensures HasParams(d) && !IsJsonBranch(d) ==> r.Some?
    ensures r.None? <==> !HasParams(d) || (IsJsonBranch(d) && toJson(d.params.value).None?)
  {
    if !HasParams(d) then None
    else if IsJsonBranch(d) then toJson(d.params.value)
    else
      var needEncode := ContentType(d) == Some(FormUrlEncoded);
      var q := Appended(d.params.value, needEncode);
      if q[|q| - 1] == '&' then Some(q[..|q| - 1]) else Some(q)
  }

  /** Whether string values are form-encoded: exactly when the content type
      is exactly `application/x-www-form-urlencoded`. */
  function NeedEncode(d: ProxyConfig): bool
    requires ContentTypeReadable(d)
  {
    ContentType(d) == Some(FormUrlEncoded)
  }

  /** The loop's string is the pieces joined by `&`, plus one trailing `&`. */
  lemma {:induction false} AppendedJoin(ps: Params, needEncode: bool)
    requires |ps| > 0
    ensures Appended(ps, needEncode) == Strings.Join(Entries(ps, needEncode), '&') + "&"
    decreases |ps|
  {
    var es := Entries(ps, needEncode);
    if |ps| > 1 {
      AppendedJoin(ps[1..], needEncode);
      assert Entries(ps[1..], needEncode) == es[1..];
      calc {
        Appended(ps, needEncode);
        es[0] + "&" + (Strings.Join(es[1..], '&') + "&");
        (es[0] + ['&'] + Strings.Join(es[1..], '&')) + "&";
      }
    }
  }

  /** Outside the JSON branch the result is the `key=value` pieces joined by
      `&`: exactly the one `&` the loop adds last is removed. */
  lemma FormResult(d: ProxyConfig, toJson: Params -> Option<string>)
    requires HasParams(d) && ContentTypeReadable(d) && !IsJsonBranch(d)
    ensures BuildRequestParams(d, toJson)
         == Some(Strings.Join(Entries(d.params.value, NeedEncode(d)), '&'))
    ensures BuildRequestParams(d, toJson).value + "&" == Appended(d.params.value, NeedEncode(d))
  {
    AppendedJoin(d.params.value, NeedEncode(d));
  }

  lemma {:induction false} JoinLast(xs: seq<string>, sep: char)
    requires |xs| > 0 && |xs[|xs| - 1]| > 0
    ensures var j := Strings.Join(xs, sep); |j| > 0 && j[|j| - 1] == xs[|xs| - 1][|xs[|xs| - 1]| - 1]
    decreases |xs|
  {
    if |xs| > 1 {
      JoinLast(xs[1..], sep);
    }
  }

  lemma EntryLast(k: string, v: string, e: string)
    requires e == k + "=" + v
    ensures |e| > 0 && (e[|e| - 1] == '&' <==> |v| > 0 && v[|v| - 1] == '&')
  {
    if |v| > 0 {
      assert e[|e| - 1] == v[|v| - 1];
    } else {
      assert e[|e| - 1] == '=';
    }
  }

  lemma JoinEndsWith(es: seq<string>, k: string, v: string)
    requires |es| > 0 && es[|es| - 1] == k + "=" + v
    ensures var j := Strings.Join(es, '&');
            (|j| > 0 && j[|j| - 1] == '&') <==> (|v| > 0 && v[|v| - 1] == '&')
  {
    EntryLast(k, v, es[|es| - 1]);
    JoinLast(es, '&');
  }

  /** A trailing `&` is left only when the last value's text itself ends in
      `&`; it never is when that value is a form-encoded string. */
  lemma TrailingAmpersand(d: ProxyConfig, toJson: Params -> Option<string>)
    requires HasParams(d) && ContentTypeReadable(d) && !IsJsonBranch(d)
    ensures var q := BuildRequestParams(d, toJson).value;
            var v := Rendered(d.params.value[|d.params.value| - 1].1, NeedEncode(d));
            (|q| > 0 && q[|q| - 1] == '&') <==> (|v| > 0 && v[|v| - 1] == '&')
  {
    var ps := d.params.value;
    var es := Entries(ps, NeedEncode(d));
    FormResult(d, toJson);
    var v := Rendered(ps[|ps| - 1].1, NeedEncode(d));
    assert es[|es| - 1] == ps[|ps| - 1].0 + "=" + v;
    JoinEndsWith(es, ps[|ps| - 1].0, v);
  }

  /** `&` and `=` appear in no key and `&` in no appended value. */
  predicate Separable(ps: Params, needEncode: bool)
  {
    forall i :: 0 <= i < |ps| ==>
      '&' !in ps[i].0 && '=' !in ps[i].0 && '&' !in Rendered(ps[i].1, needEncode)
  }

  /** A `key=value&…` string read back: cut at every `&`, then each piece at
      its first `=`. */
  function ParseQuery(q: string): (r: seq<(string, Option<string>)>)
    ensures |r| == |Strings.Split(q, '&')|
  {
    var pieces := Strings.Split(q, '&');
    seq(|pieces|, i requires 0 <= i < |pieces| => Strings.SplitFirst(pieces[i], '='))
  }

  /** Outside the JSON branch, with separable keys and values, reading the
      string back yields every key with the text appended for its value, in
      order; form-encoded strings then decode to the original values. */
  lemma ParseBuilt(d: ProxyConfig, toJson: Params -> Option<string>)
    requires HasParams(d) && ContentTypeReadable(d) && !IsJsonBranch(d)
    requires Separable(d.params.value, NeedEncode(d))
    ensures var ps := d.params.value;
            var r := ParseQuery(BuildRequestParams(d, toJson).value);
            |r| == |ps| &&
            forall i :: 0 <= i < |ps| ==> r[i] == (ps[i].0, Some(Rendered(ps[i].1, NeedEncode(d))))
  {
    var ps := d.params.value;
    var e := NeedEncode(d);
    var es := Entries(ps, e);
    FormResult(d, toJson);
    forall i | 0 <= i < |es| ensures '&' !in es[i] {
      assert es[i] == ps[i].0 + "=" + Rendered(ps[i].1, e);
    }
    Strings.SplitJoin(es, '&');
    forall i | 0 <= i < |ps|
      ensures Strings.SplitFirst(es[i], '=') == (ps[i].0, Some(Rendered(ps[i].1, e)))
    {
      var k := ps[i].0;
      var v := Rendered(ps[i].1, e);
      assert es[i] == k + ['='] + v;
      Strings.IndexOfAfter(k, '=', v);
      assert (k + ['='] + v)[..|k|] == k;
      assert (k + ['='] + v)[|k| + 1..] == v;
    }
  }

  /** Under form encoding every string value comes back exactly, whatever
      characters it holds. */
  lemma ParseBuiltForm(d: ProxyConfig, toJson: Params -> Option<string>, i: nat)
    requires HasParams(d) && ContentTypeReadable(d) && !IsJsonBranch(d)
    requires NeedEncode(d) && Separable(d.params.value, true)
    requires i < |d.params.value| && d.params.value[i].1.Text?
    ensures var r := ParseQuery(BuildRequestParams(d, toJson).value);
            i < |r| && r[i].0 == d.params.value[i].0 && r[i].1.Some? &&
            UrlEncoding.Decode(r[i].1.value) == Some(d.params.value[i].1.text)
  {
    ParseBuilt(d, toJson);
  }
}
