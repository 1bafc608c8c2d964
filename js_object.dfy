/**
  A plain JavaScript object (`{}`) used as a string-to-string dictionary:
  what `obj[key]` reads, what `obj[key] = value` does, and the order in
  which Object.entries lists the own properties.
 */
module JsObject {

  /** What `obj[key]` evaluates to: an own string property, a member that
      every plain object inherits from Object.prototype (a function, or the
      prototype object itself for `__proto__`; all of them truthy), or
      `undefined`. */
  datatype Value = Undefined | Str(s: string) | Inherited(name: string)

  /** JavaScript truthiness of a Value: `undefined` and `""` are falsy. */
  predicate Truthy(v: Value) {
    match v
    case Undefined => false
    case Str(s) => s != []
    case Inherited(_) => true
  }

  /** The accessor whose setter ignores a non-object value. */
  const ProtoKey: string := "__proto__"

  /** The properties of Object.prototype, visible through any plain object. */
  const PrototypeNames: set<string> := {
    "constructor", "__defineGetter__", "__defineSetter__", "hasOwnProperty",
    "__lookupGetter__", "__lookupSetter__", "isPrototypeOf",
    "propertyIsEnumerable", "toString", "valueOf", "__proto__", "toLocaleString"
  }

  predicate IsDigit(c: char) {
    '0' <= c <= '9'
  }

  predicate AllDigits(s: string) {
    forall i :: 0 <= i < |s| ==> IsDigit(s[i])
  }

  /** The decimal number a digit string denotes. */
  function DecimalValue(s: string): nat
    requires AllDigits(s)
  {
    if s == [] then 0
    else DecimalValue(s[..|s| - 1]) * 10 + (s[|s| - 1] as int - '0' as int)
  }

  /** The largest array index, 2^32 - 2. */
  const MaxArrayIndex: nat := 0xFFFF_FFFE

  /** An array index: the canonical decimal form (no leading zero) of an
      integer from 0 to 2^32 - 2. Object.entries lists these keys first. */
  predicate IsArrayIndex(k: string) {
    |k| >= 1 && AllDigits(k) && (k[0] != '0' || |k| == 1)
    && DecimalValue(k) <= MaxArrayIndex
  }

  /** `a` may precede `b` among the own keys: array-index keys come before
      every other key, in ascending numeric order. */
  predicate Before(a: string, b: string) {
    IsArrayIndex(b) ==> IsArrayIndex(a) && DecimalValue(a) <= DecimalValue(b)
  }

  /** The own-property order of ordinary objects. */
  ghost predicate OrderedKeys(keys: seq<string>) {
    forall i, j :: 0 <= i < j < |keys| ==> Before(keys[i], keys[j])
  }

  ghost predicate Distinct(keys: seq<string>) {
    forall i, j :: 0 <= i < j < |keys| ==> keys[i] != keys[j]
  }

  /** A plain object: its own property names in Object.entries order and
      their string values. */
  datatype Object = Object(keys: seq<string>, props: map<string, string>) {
    ghost predicate Valid() {
      Distinct(keys) && OrderedKeys(keys)
      && (forall k :: k in props <==> k in keys)
      && ProtoKey !in props
    }
  }

  /** The object literal `{}`. */
  function Empty(): (o: Object)
    ensures o.Valid() && o.keys == []
  {
    Object([], map[])
  }

  /** `obj[key]`. */
  function Lookup(o: Object, key: string): (r: Value)
    ensures r.Str? <==> key in o.props
    ensures r.Str? ==> r.s == o.props[key]
    ensures r.Inherited? <==> key !in o.props && key in PrototypeNames
  {
    if key in o.props then Str(o.props[key])
    else if key in PrototypeNames then Inherited(key)
    else Undefined
  }

  /** Where a new array-index key goes: after the leading array-index keys
      whose value does not exceed its own. */
  function IndexPosition(keys: seq<string>, k: string): (p: nat)
    requires IsArrayIndex(k)
    ensures p <= |keys|
    ensures forall i :: 0 <= i < p ==> Before(keys[i], k)
    ensures p < |keys| ==>
      !IsArrayIndex(keys[p]) || DecimalValue(k) < DecimalValue(keys[p])
  {
    if keys == [] || !IsArrayIndex(keys[0]) || DecimalValue(k) < DecimalValue(keys[0]) then 0
    else
      var p := 1 + IndexPosition(keys[1..], k);
      assert forall i :: 1 <= i < p ==> keys[i] == keys[1..][i - 1];
      p
  }

  /** The key order after a new own property `k` is created: an array index
      joins the ascending run of array indices, any other key goes last. */
  function InsertKey(keys: seq<string>, k: string): (r: seq<string>)
    requires OrderedKeys(keys)
    ensures OrderedKeys(r)
    ensures multiset(r) == multiset(keys) + multiset{k}
    ensures !IsArrayIndex(k) ==> r == keys + [k]
    ensures (forall i :: 0 <= i < |keys| ==> Before(keys[i], k)) ==> r == keys + [k]
    ensures exists p :: 0 <= p <= |keys| && r == keys[..p] + [k] + keys[p..]
  {
    if !IsArrayIndex(k) then
      assert keys + [k] == keys[..|keys|] + [k] + keys[|keys|..];
      keys + [k]
    else
      var p := IndexPosition(keys, k);
      var r := keys[..p] + [k] + keys[p..];
      assert multiset(r) == multiset(keys) + multiset{k} by {
        assert keys == keys[..p] + keys[p..];
      }
      assert (forall i :: 0 <= i < |keys| ==> Before(keys[i], k)) ==> p == |keys|;
      InsertOrdered(keys, p, k);
      r
  }

  /** Putting an array index at the place IndexPosition finds keeps the order. */
  lemma InsertOrdered(keys: seq<string>, p: nat, k: string)
    requires OrderedKeys(keys) && IsArrayIndex(k) && p <= |keys|
    requires forall i :: 0 <= i < p ==> Before(keys[i], k)
    requires p < |keys| ==>
      !IsArrayIndex(keys[p]) || DecimalValue(k) < DecimalValue(keys[p])
    ensures OrderedKeys(keys[..p] + [k] + keys[p..])
  {
    var r := keys[..p] + [k] + keys[p..];
    forall i, j | 0 <= i < j < |r| ensures Before(r[i], r[j]) {
      if j < p {
        assert r[i] == keys[i] && r[j] == keys[j];
      } else if j == p {
        assert r[i] == keys[i] && r[j] == k;
      } else {
        assert r[j] == keys[j - 1];
        if i < p {
          assert r[i] == keys[i];
        } else if i == p {
          assert r[i] == k;
          if p < j - 1 {
            assert Before(keys[p], keys[j - 1]);
          }
        } else {
          assert r[i] == keys[i - 1];
        }
      }
    }
  }

  /** `obj[key] = value` for a string value: an existing own property keeps
      its place and takes the new value, a new one is created in key order,
      and `__proto__` is an inherited accessor that ignores a string. */
  function Put(o: Object, key: string, value: string): (r: Object)
    requires o.Valid()
    ensures r.Valid()
    ensures key != ProtoKey ==> Lookup(r, key) == Str(value)
    ensures forall k :: k != key ==> Lookup(r, k) == Lookup(o, k)
    ensures key == ProtoKey ==> r == o
    ensures key in o.props ==> r.keys == o.keys
    ensures key != ProtoKey && key !in o.props && !IsArrayIndex(key) ==> r.keys == o.keys + [key]
    ensures key != ProtoKey && key !in o.props ==>
      exists p :: 0 <= p <= |o.keys| && r.keys == o.keys[..p] + [key] + o.keys[p..]
  {
    if key == ProtoKey then o
    else if key in o.props then Object(o.keys, o.props[key := value])
    else
      var keys := InsertKey(o.keys, key);
      var r := Object(keys, o.props[key := value]);
      assert multiset(keys)[key] == 1 by {
        assert multiset(o.keys)[key] == 0;
      }
      assert Distinct(keys) by {
        forall i, j | 0 <= i < j < |keys| ensures keys[i] != keys[j] {
          if keys[i] == keys[j] {
            MultisetTwice(keys, i, j);
            if keys[i] != key {
              assert multiset(o.keys)[keys[i]] >= 2;
              DistinctOnce(o.keys, keys[i]);
            }
          }
        }
      }
      assert forall k :: k in keys <==> k in multiset(keys);
      r
  }

  /** Two positions holding the same element make it occur twice. */
  lemma MultisetTwice(s: seq<string>, i: nat, j: nat)
    requires i < j < |s| && s[i] == s[j]
    ensures multiset(s)[s[i]] >= 2
  {
    assert s == s[..i] + [s[i]] + s[i + 1..j] + [s[j]] + s[j + 1..];
  }

  /** In a sequence without repetitions every element occurs at most once. */
  lemma {:induction false} DistinctOnce(s: seq<string>, x: string)
    requires Distinct(s)
    ensures multiset(s)[x] <= 1
  {
    if s != [] {
      assert Distinct(s[1..]) by {
        forall i, j | 0 <= i < j < |s| - 1 ensures s[1..][i] != s[1..][j] {
          assert s[1..][i] == s[i + 1] && s[1..][j] == s[j + 1];
        }
      }
      DistinctOnce(s[1..], x);
      assert s == [s[0]] + s[1..];
      if s[0] == x {
        assert x !in s[1..];
      }
    }
  }
}
