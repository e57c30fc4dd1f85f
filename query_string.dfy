/**
 * Query strings made of `key=value` parameters joined by "&".
 *
 * Join is the text operation the builder uses (Rust's `join` on a slice of
 * strings). Split, SplitOnce and ParseQuery read a query string back the way
 * a server does, so that what a built query carries can be stated: the
 * parameters, in order, with their keys and values decoded.
 */
module QueryString {
  import opened Wrappers
  import opened PercentEncoding

  /** The parts separated by `sep`; no separator before the first or after the last. */
  function Join(parts: seq<string>, sep: string): string {
    if parts == [] then []
    else if |parts| == 1 then parts[0]
    else parts[0] + sep + Join(parts[1..], sep)
  }

  /** The pieces of `s` between occurrences of `sep`; there is always at least one. */
  function Split(s: string, sep: char): (pieces: seq<string>)
    ensures |pieces| >= 1
    ensures forall i :: 0 <= i < |pieces| ==> sep !in pieces[i]
  {
    if s == [] then [[]]
    else
      var rest := Split(s[1..], sep);
      if s[0] == sep then [[]] + rest
      else [[s[0]] + rest[0]] + rest[1..]
  }

  /** The text before the first `sep`, and the text after it (empty when there is none). */
  function SplitOnce(s: string, sep: char): (string, string) {
    if s == [] then ([], [])
    else if s[0] == sep then ([], s[1..])
    else
      var (before, after) := SplitOnce(s[1..], sep);
      ([s[0]] + before, after)
  }

  /** The decoded key and value of one parameter. */
  function ParseParam(p: string): Option<(seq<byte>, seq<byte>)> {
    var (key, value) := SplitOnce(p, '=');
    match (Decode(key), Decode(value))
    case (Some(k), Some(v)) => Some((k, v))
    case _ => None
  }

  function ParseParams(ps: seq<string>): Option<seq<(seq<byte>, seq<byte>)>> {
    if ps == [] then Some([])
    else
      match (ParseParam(ps[0]), ParseParams(ps[1..]))
      case (Some(kv), Some(rest)) => Some([kv] + rest)
      case _ => None
  }

  /** The decoded parameters of a query string, in order. */
  function ParseQuery(q: string): Option<seq<(seq<byte>, seq<byte>)>> {
    ParseParams(Split(q, '&'))
  }

  /** One parameter with its key and value percent-encoded. */
  function EncodedParam(field: (string, string)): string {
    Encode(field.0) + "=" + Encode(field.1)
  }

  function EncodedParams(fields: seq<(string, string)>): (ps: seq<string>)
    ensures |ps| == |fields|
  {
    seq(|fields|, i requires 0 <= i < |fields| => EncodedParam(fields[i]))
  }

  /** One parameter per value under the same key, with only the values encoded. */
  function KeyParams(key: string, values: seq<string>): (ps: seq<string>)
    ensures |ps| == |values|
  {
    seq(|values|, i requires 0 <= i < |values| => key + "=" + Encode(values[i]))
  }

  /** The UTF-8 bytes of each key and value. */
  function Utf8Fields(fields: seq<(string, string)>): (bs: seq<(seq<byte>, seq<byte>)>)
    ensures |bs| == |fields|
  {
    seq(|fields|, i requires 0 <= i < |fields| => (Utf8(fields[i].0), Utf8(fields[i].1)))
  }

  lemma EncodedParamsAppend(a: seq<(string, string)>, b: seq<(string, string)>)
    ensures EncodedParams(a + b) == EncodedParams(a) + EncodedParams(b)
  {
  }

  lemma KeyParamsPush(key: string, values: seq<string>, value: string)
    ensures KeyParams(key, values + [value]) == KeyParams(key, values) + [key + "=" + Encode(value)]
  {
  }

  /** The values a list of pairs carries under one key, in order. */
  function Values(fs: seq<(string, string)>, key: string): seq<string> {
    if fs == [] then []
    else (if fs[0].0 == key then [fs[0].1] else []) + Values(fs[1..], key)
  }

  lemma {:induction false} ValuesAppend(a: seq<(string, string)>, b: seq<(string, string)>, key: string)
    ensures Values(a + b, key) == Values(a, key) + Values(b, key)
  {
    if a == [] {
      assert a + b == b;
    } else {
      var ab := a + b;
      assert ab[0] == a[0] && ab[1..] == a[1..] + b;
      ValuesAppend(a[1..], b, key);
      assert Values(ab, key) == Values([ab[0]], key) + Values(ab[1..], key);
    }
  }

  lemma {:induction false} SplitWithout(p: string, sep: char)
    requires sep !in p
    ensures Split(p, sep) == [p]
  {
    if p != [] {
      SplitWithout(p[1..], sep);
      assert [p[0]] + p[1..] == p;
    }
  }

  /** Splitting `p + [sep] + t` where `p` has no separator: `p` is the first piece. */
  lemma {:induction false} SplitAfterPiece(p: string, sep: char, t: string)
    requires sep !in p
    ensures Split(p + [sep] + t, sep) == [p] + Split(t, sep)
  {
    if p == [] {
      assert p + [sep] + t == [sep] + t;
      assert ([sep] + t)[1..] == t;
    } else {
      var s := p + [sep] + t;
      assert s[0] == p[0];
      assert s[1..] == p[1..] + [sep] + t;
      SplitAfterPiece(p[1..], sep, t);
      assert [p[0]] + p[1..] == p;
    }
  }

  /** Split undoes Join when no part contains the separator. */
  lemma {:induction false} SplitJoin(parts: seq<string>, sep: char)
    requires |parts| >= 1
    requires forall i :: 0 <= i < |parts| ==> sep !in parts[i]
    ensures Split(Join(parts, [sep]), sep) == parts
  {
    if |parts| == 1 {
      SplitWithout(parts[0], sep);
    } else {
      SplitJoin(parts[1..], sep);
      SplitAfterPiece(parts[0], sep, Join(parts[1..], [sep]));
      assert [parts[0]] + parts[1..] == parts;
    }
  }

  /** SplitOnce finds the separator after a key that has none. */
  lemma {:induction false} SplitOnceAt(key: string, sep: char, value: string)
    requires sep !in key
    ensures SplitOnce(key + [sep] + value, sep) == (key, value)
  {
    if key == [] {
      assert key + [sep] + value == [sep] + value;
      assert ([sep] + value)[1..] == value;
    } else {
      var s := key + [sep] + value;
      assert s[0] == key[0];
      assert s[1..] == key[1..] + [sep] + value;
      SplitOnceAt(key[1..], sep, value);
      assert [key[0]] + key[1..] == key;
    }
  }

  /** An encoded parameter decodes to the UTF-8 bytes of its key and value. */
  lemma ParseEncodedParam(field: (string, string))
    ensures ParseParam(EncodedParam(field)) == Some((Utf8(field.0), Utf8(field.1)))
  {
    EncodeHasNoDelimiters(field.0);
    SplitOnceAt(Encode(field.0), '=', Encode(field.1));
    DecodeEncode(field.0);
    DecodeEncode(field.1);
  }

  lemma {:induction false} ParseEncodedParams(fields: seq<(string, string)>)
    ensures ParseParams(EncodedParams(fields)) == Some(Utf8Fields(fields))
  {
    if fields != [] {
      EncodedParamsTail(fields);
      ParseEncodedParam(fields[0]);
      ParseEncodedParams(fields[1..]);
      ParseParamsCons(EncodedParams(fields), (Utf8(fields[0].0), Utf8(fields[0].1)),
                      Utf8Fields(fields[1..]));
      Utf8FieldsCons(fields);
    }
  }

  lemma EncodedParamsTail(fields: seq<(string, string)>)
    requires fields != []
    ensures EncodedParams(fields)[0] == EncodedParam(fields[0])
    ensures EncodedParams(fields)[1..] == EncodedParams(fields[1..])
  {
  }

  lemma Utf8FieldsCons(fields: seq<(string, string)>)
    requires fields != []
    ensures Utf8Fields(fields) == [(Utf8(fields[0].0), Utf8(fields[0].1))] + Utf8Fields(fields[1..])
  {
  }

  lemma ParseParamsCons(ps: seq<string>, head: (seq<byte>, seq<byte>), rest: seq<(seq<byte>, seq<byte>)>)
    requires ps != [] && ParseParam(ps[0]) == Some(head) && ParseParams(ps[1..]) == Some(rest)
    ensures ParseParams(ps) == Some([head] + rest)
  {
  }

  /**
   * Round trip: a non-empty list of encoded parameters joined by "&" parses
   * back to exactly those keys and values, in the same order.
   */
  lemma ParseJoinedParams(fields: seq<(string, string)>)
    requires |fields| >= 1
    ensures ParseQuery(Join(EncodedParams(fields), "&")) == Some(Utf8Fields(fields))
  {
    var ps := EncodedParams(fields);
    forall i | 0 <= i < |ps| ensures '&' !in ps[i] {
      EncodeHasNoDelimiters(fields[i].0);
      EncodeHasNoDelimiters(fields[i].1);
    }
    SplitJoin(ps, '&');
    ParseEncodedParams(fields);
  }
}
