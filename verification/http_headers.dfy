/** Spring's `HttpHeaders`: a multimap from header names to value lists,
    backed by a `LinkedCaseInsensitiveMap`, so names match regardless of
    letter case and entries keep insertion order. */
module HttpHeaders {
  import opened Wrappers

  const ContentType: string := "Content-Type"
  const ContentLength: string := "Content-Length"
  const TransferEncoding: string := "Transfer-Encoding"
  const ContentEncoding: string := "Content-Encoding"

  /** Entries in insertion order: a name as first spelled, and its values. */
  type Headers = seq<(string, seq<string>)>

  function LowerChar(c: char): char
  {
    if 'A' <= c <= 'Z' then (c as int + 32) as char else c
  }

  /** The key the map compares names by. */
  function Fold(s: string): (r: string)
    ensures |r| == |s|
  {
    seq(|s|, i requires 0 <= i < |s| => LowerChar(s[i]))
  }

  predicate SameName(a: string, b: string)
  {
    Fold(a) == Fold(b)
  }

  /** No two entries have names that match each other. */
  predicate WellFormed(h: Headers)
  {
    forall i, j :: 0 <= i < j < |h| ==> !SameName(h[i].0, h[j].0)
  }

  /** Position of the entry named like `name`. */
  function Find(h: Headers, name: string): (r: Option<nat>)
    ensures r.Some? ==> r.value < |h| && SameName(h[r.value].0, name)
    ensures r.Some? ==> forall i :: 0 <= i < r.value ==> !SameName(h[i].0, name)
    ensures r.None? ==> forall i :: 0 <= i < |h| ==> !SameName(h[i].0, name)
  {
    if h == [] then None
    else if SameName(h[0].0, name) then Some(0)
    else
      match Find(h[1..], name)
      case None => None
      case Some(i) => Some(i + 1)
  }

  /** `getOrEmpty(name)`. */
  function GetOrEmpty(h: Headers, name: string): seq<string>
  {
    match Find(h, name)
    case Some(i) => h[i].1
    case None => []
  }

  /** `containsKey(name)`. */
  function ContainsKey(h: Headers, name: string): bool
  {
    Find(h, name).Some?
  }

  /** In a well-formed map the values under `m` are those of the one entry
      named like `m`, or none when there is no such entry. */
  lemma GetUnique(h: Headers, m: string)
    requires WellFormed(h)
    ensures forall i :: 0 <= i < |h| && SameName(h[i].0, m) ==> GetOrEmpty(h, m) == h[i].1
    ensures (forall i :: 0 <= i < |h| ==> !SameName(h[i].0, m)) ==> GetOrEmpty(h, m) == []
  {
  }

  /** `remove(name)`: drops the entry named like `name`, keeping the others in order. */
  function Remove(h: Headers, name: string): (r: Headers)
    ensures forall i :: 0 <= i < |r| ==> !SameName(r[i].0, name) && r[i] in h
    ensures forall i :: 0 <= i < |h| && !SameName(h[i].0, name) ==> h[i] in r
    ensures WellFormed(h) ==> WellFormed(r)
  {
    if h == [] then []
    else
      var rest := Remove(h[1..], name);
      if SameName(h[0].0, name) then rest
      else
        assert WellFormed(h) ==> forall i :: 0 <= i < |rest| ==> !SameName(h[0].0, rest[i].0) by {
          if WellFormed(h) {
            forall i | 0 <= i < |rest|
              ensures !SameName(h[0].0, rest[i].0)
            {
              var j :| 0 <= j < |h[1..]| && h[1..][j] == rest[i];
              assert h[j + 1] == rest[i];
            }
          }
        }
        [h[0]] + rest
  }

  /** `LinkedCaseInsensitiveMap.put(name, values)`: an entry named like `name`
      is replaced in place when spelled identically, and otherwise removed and
      added again at the end under the new spelling. */
  function Put(h: Headers, name: string, values: seq<string>): (r: Headers)
    requires WellFormed(h)
    ensures WellFormed(r)
  {
    match Find(h, name)
    case None => h + [(name, values)]
    case Some(i) =>
      if h[i].0 == name then h[i := (name, values)]
      else Remove(h, name) + [(name, values)]
  }

  /** `set(name, value)`: the single value `value` replaces any earlier ones. */
  function Set(h: Headers, name: string, value: string): (r: Headers)
    requires WellFormed(h)
    ensures WellFormed(r)
  {
    Put(h, name, [value])
  }

  /** `add(name, value)`: appends to the values of the entry named like
      `name`, keeping its spelling and position, or adds a new entry. */
  function Add(h: Headers, name: string, value: string): (r: Headers)
    requires WellFormed(h)
    ensures WellFormed(r)
  {
    match Find(h, name)
    case None => h + [(name, [value])]
    case Some(i) => h[i := (h[i].0, h[i].1 + [value])]
  }

  /** `putAll(other)`: `put` of each entry of `src`, in order. */
  function PutAll(h: Headers, src: Headers): (r: Headers)
    requires WellFormed(h)
    ensures WellFormed(r)
    decreases |src|
  {
    if src == [] then h else PutAll(Put(h, src[0].0, src[0].1), src[1..])
  }

  /** A `forEach(headers::set)` over name/value pairs, in order. */
  function SetAll(h: Headers, pairs: seq<(string, string)>): (r: Headers)
    requires WellFormed(h)
    ensures WellFormed(r)
    decreases |pairs|
  {
    if pairs == [] then h else SetAll(Set(h, pairs[0].0, pairs[0].1), pairs[1..])
  }

  /** The value of the last pair named like `m`: the one a run of `set`s leaves. */
  function LastValue(pairs: seq<(string, string)>, m: string): Option<string>
  {
    if pairs == [] then None
    else
      match LastValue(pairs[1..], m)
      case Some(v) => Some(v)
      case None => if SameName(pairs[0].0, m) then Some(pairs[0].1) else None
  }

  lemma GetPutNew(h: Headers, name: string, values: seq<string>, m: string)
    requires WellFormed(h) && Find(h, name).None?
    ensures GetOrEmpty(h + [(name, values)], m) == if SameName(m, name) then values else GetOrEmpty(h, m)
  {
    var r := h + [(name, values)];
    assert r == Put(h, name, values);
    GetUnique(h, m);
    GetUnique(r, m);
    assert r[|h|] == (name, values);
    if !SameName(m, name) {
      forall i | 0 <= i < |h| && SameName(h[i].0, m)
        ensures GetOrEmpty(r, m) == h[i].1
      {
        assert r[i] == h[i];
      }
    }
  }

  lemma GetPutInPlace(h: Headers, k: nat, name: string, values: seq<string>, m: string)
    requires WellFormed(h) && Find(h, name) == Some(k) && h[k].0 == name
    ensures GetOrEmpty(h[k := (name, values)], m) == if SameName(m, name) then values else GetOrEmpty(h, m)
  {
    var r := h[k := (name, values)];
    assert r == Put(h, name, values);
    GetUnique(h, m);
    GetUnique(r, m);
    if !SameName(m, name) {
      forall i | 0 <= i < |h| && SameName(h[i].0, m)
        ensures GetOrEmpty(r, m) == h[i].1
      {
        assert r[i] == h[i];
      }
    }
  }

  /** The entries `Remove` keeps, with one more entry appended at the end. */
  lemma RemoveAppend(h: Headers, name: string, values: seq<string>)
    requires WellFormed(h)
    ensures WellFormed(Remove(h, name) + [(name, values)])
  {
    var rest := Remove(h, name);
    var r := rest + [(name, values)];
    forall i, j | 0 <= i < j < |r| ensures !SameName(r[i].0, r[j].0) {
      assert r[i] == rest[i];
      if j < |rest| {
        assert r[j] == rest[j];
      }
    }
  }

  lemma GetPutMovedOther(h: Headers, name: string, values: seq<string>, m: string)
    requires WellFormed(h) && !SameName(m, name)
    ensures GetOrEmpty(Remove(h, name) + [(name, values)], m) == GetOrEmpty(h, m)
  {
    var rest := Remove(h, name);
    var r := rest + [(name, values)];
    RemoveAppend(h, name, values);
    GetUnique(h, m);
    GetUnique(r, m);
    forall i | 0 <= i < |h| && SameName(h[i].0, m)
      ensures GetOrEmpty(r, m) == h[i].1
    {
      var j :| 0 <= j < |rest| && rest[j] == h[i];
      assert r[j] == h[i];
    }
    forall i | 0 <= i < |r| && SameName(r[i].0, m)
      ensures exists j :: 0 <= j < |h| && h[j] == r[i]
    {
      assert r[i] == rest[i];
      assert rest[i] in h;
    }
  }

  lemma GetPutMoved(h: Headers, name: string, values: seq<string>, m: string)
    requires WellFormed(h)
    ensures GetOrEmpty(Remove(h, name) + [(name, values)], m) == if SameName(m, name) then values else GetOrEmpty(h, m)
  {
    if SameName(m, name) {
      var r := Remove(h, name) + [(name, values)];
      RemoveAppend(h, name, values);
      GetUnique(r, m);
      assert r[|r| - 1] == (name, values);
    } else {
      GetPutMovedOther(h, name, values, m);
    }
  }

  /** After `put`, the name put carries exactly the new values and every
      other name keeps its values. */
  lemma GetPut(h: Headers, name: string, values: seq<string>, m: string)
    requires WellFormed(h)
    ensures GetOrEmpty(Put(h, name, values), m) == if SameName(m, name) then values else GetOrEmpty(h, m)
  {
    match Find(h, name)
    case None => GetPutNew(h, name, values, m);
    case Some(k) =>
      if h[k].0 == name {
        GetPutInPlace(h, k, name, values, m);
      } else {
        GetPutMoved(h, name, values, m);
      }
  }

  /** `add` appends `value` to the values of `name` and changes nothing else. */
  lemma GetAdd(h: Headers, name: string, value: string, m: string)
    requires WellFormed(h)
    ensures GetOrEmpty(Add(h, name, value), m)
         == if SameName(m, name) then GetOrEmpty(h, m) + [value] else GetOrEmpty(h, m)
  {
    var r := Add(h, name, value);
    GetUnique(h, m);
    GetUnique(r, m);
    match Find(h, name)
    case None =>
      assert r[|h|] == (name, [value]);
      if !SameName(m, name) {
        forall i | 0 <= i < |h| && SameName(h[i].0, m)
          ensures GetOrEmpty(r, m) == h[i].1
        {
          assert r[i] == h[i];
        }
      }
    case Some(k) =>
      assert r[k] == (h[k].0, h[k].1 + [value]);
      if !SameName(m, name) {
        forall i | 0 <= i < |h| && SameName(h[i].0, m)
          ensures GetOrEmpty(r, m) == h[i].1
        {
          assert r[i] == h[i];
        }
      }
  }

  /** After a run of `set`s, a name carries the value of the last pair named
      like it, or keeps its values when no pair is. */
  lemma {:induction false} GetSetAll(h: Headers, pairs: seq<(string, string)>, m: string)
    requires WellFormed(h)
    ensures GetOrEmpty(SetAll(h, pairs), m)
         == match LastValue(pairs, m) case Some(v) => [v] case None => GetOrEmpty(h, m)
    decreases |pairs|
  {
    if pairs != [] {
      var h1 := Set(h, pairs[0].0, pairs[0].1);
      GetSetAll(h1, pairs[1..], m);
      GetPut(h, pairs[0].0, [pairs[0].1], m);
    }
  }

  /** Copying into an empty map with `putAll` reproduces a well-formed map,
      spelling and order included. */
  lemma {:induction false} PutAllAppends(h: Headers, src: Headers)
    requires WellFormed(h + src)
    ensures WellFormed(h)
    ensures PutAll(h, src) == h + src
    decreases |src|
  {
    assert forall i, j :: 0 <= i < j < |h| ==> (h + src)[i] == h[i] && (h + src)[j] == h[j];
    if src != [] {
      forall i | 0 <= i < |h|
        ensures !SameName(h[i].0, src[0].0)
      {
        assert (h + src)[i] == h[i] && (h + src)[|h|] == src[0];
      }
      assert Put(h, src[0].0, src[0].1) == h + [src[0]];
      assert (h + [src[0]]) + src[1..] == h + src;
      PutAllAppends(h + [src[0]], src[1..]);
    }
  }

  lemma CopyAll(src: Headers)
    requires WellFormed(src)
    ensures PutAll([], src) == src
  {
    assert [] + src == src;
    PutAllAppends([], src);
  }
}
