/**
  Ordering of the field list of a message and the value list of an enum by
  name. The source sorts generic records with one comparator that looks at
  `field_name` and then at `value_name`; a record lacking a key reads it as
  the empty string. On lists of one kind that comparator is the plain string
  order on that kind's name, which the sort below uses. The source's sort is
  not stable, so only the sortedness and the permutation are promised.
 */
module Sorting {

  /** `QString::operator<`: lexicographic order by character code, a proper
      prefix being smaller. */
  predicate Less(a: string, b: string) {
    |b| > 0 && (|a| == 0 || a[0] < b[0] || (a[0] == b[0] && Less(a[1..], b[1..])))
  }

  lemma {:induction false} LessIrreflexive(a: string)
    ensures !Less(a, a)
  {
    if |a| > 0 {
      LessIrreflexive(a[1..]);
    }
  }

  lemma {:induction false} LessTransitive(a: string, b: string, c: string)
    requires Less(a, b) && Less(b, c)
    ensures Less(a, c)
  {
    if |a| > 0 && a[0] == b[0] && b[0] == c[0] {
      LessTransitive(a[1..], b[1..], c[1..]);
    }
  }

  lemma {:induction false} LessTotal(a: string, b: string)
    ensures a == b || Less(a, b) || Less(b, a)
  {
    if |a| > 0 && |b| > 0 && a[0] == b[0] {
      LessTotal(a[1..], b[1..]);
      if a[1..] == b[1..] {
        assert a == [a[0]] + a[1..] && b == [b[0]] + b[1..];
      }
    }
  }

  lemma LessAsymmetric(a: string, b: string)
    ensures !(Less(a, b) && Less(b, a))
  {
    if Less(a, b) && Less(b, a) {
      LessTransitive(a, b, a);
      LessIrreflexive(a);
    }
  }

  /** "Not less" chains: from `a <= b` and `b <= c` follows `a <= c`. */
  lemma NotLessTransitive(a: string, b: string, c: string)
    requires !Less(b, a) && !Less(c, b)
    ensures !Less(c, a)
  {
    LessTotal(a, b);
    if Less(c, a) && Less(a, b) {
      LessTransitive(c, a, b);
    }
  }

  /** The two keys the source's comparator reads from a record; a record
      without a key reads it as the empty string. */
  datatype NameKeys = NameKeys(fieldName: string, valueName: string)

  /** `nameLessThan`: less by `field_name`, or else less by `value_name`. */
  function NameLessThan(v1: NameKeys, v2: NameKeys): (r: bool)
    ensures r ==> v1 != v2
    ensures v1.valueName == v2.valueName ==> (r <==> Less(v1.fieldName, v2.fieldName))
    ensures v1.fieldName == v2.fieldName ==> (r <==> Less(v1.valueName, v2.valueName))
  {
    LessIrreflexive(v1.fieldName);
    LessIrreflexive(v1.valueName);
    Less(v1.fieldName, v2.fieldName) || Less(v1.valueName, v2.valueName)
  }

  function FieldKeys(name: string): NameKeys {
    NameKeys(name, "")
  }

  function ValueKeys(name: string): NameKeys {
    NameKeys("", name)
  }

  /** On field records the comparator is the order of field names. */
  lemma ComparatorOnFields(a: string, b: string)
    ensures NameLessThan(FieldKeys(a), FieldKeys(b)) <==> Less(a, b)
  {
    LessIrreflexive("");
  }

  /** On enum value records the comparator is the order of value names. */
  lemma ComparatorOnValues(a: string, b: string)
    ensures NameLessThan(ValueKeys(a), ValueKeys(b)) <==> Less(a, b)
  {
    LessIrreflexive("");
  }

  /** On a mixed pair the comparator is not an order at all: a field record
      `b` and a value record `a` are each less than the other. */
  lemma ComparatorOnMixedRecords()
    ensures NameLessThan(FieldKeys("b"), ValueKeys("a"))
    ensures NameLessThan(ValueKeys("a"), FieldKeys("b"))
  {
  }

  /** No element is ordered before an earlier one. */
  ghost predicate SortedBy<T>(s: seq<T>, key: T -> string) {
    forall i, j :: 0 <= i < j < |s| ==> !Less(key(s[j]), key(s[i]))
  }

  /** `x` placed before the first element whose key is not below its own. */
  function Insert<T>(x: T, s: seq<T>, key: T -> string): (r: seq<T>)
    requires SortedBy(s, key)
    ensures SortedBy(r, key)
    ensures multiset(r) == multiset(s) + multiset{x}
  {
    if |s| == 0 then [x]
    else if !Less(key(s[0]), key(x)) then
      PrependSorted(x, s, key);
      assert s == [s[0]] + s[1..];
      [x] + s
    else
      var rest := Insert(x, s[1..], key);
      assert s == [s[0]] + s[1..];
      PrependBelowRest(x, s, rest, key);
      [s[0]] + rest
  }

  /** An element whose key is at most the first key of a sorted list can go
      in front of it. */
  lemma PrependSorted<T>(x: T, s: seq<T>, key: T -> string)
    requires |s| > 0 && SortedBy(s, key) && !Less(key(s[0]), key(x))
    ensures SortedBy([x] + s, key)
  {
    var r := [x] + s;
    forall i, j | 0 <= i < j < |r| ensures !Less(key(r[j]), key(r[i])) {
      if i == 0 && j > 1 {
        NotLessTransitive(key(x), key(s[0]), key(s[j - 1]));
      }
    }
  }

  /** The head of a sorted list stays in front when `x`, whose key is above
      it, is inserted into the rest. */
  lemma PrependBelowRest<T>(x: T, s: seq<T>, rest: seq<T>, key: T -> string)
    requires |s| > 0 && SortedBy(s, key) && Less(key(s[0]), key(x))
    requires SortedBy(rest, key) && multiset(rest) == multiset(s[1..]) + multiset{x}
    ensures SortedBy([s[0]] + rest, key)
  {
    forall j | 0 <= j < |rest| ensures !Less(key(rest[j]), key(s[0])) {
      assert rest[j] in multiset(rest);
      if rest[j] == x {
        LessAsymmetric(key(s[0]), key(x));
      } else {
        assert rest[j] in multiset(s[1..]);
        var k :| 0 <= k < |s[1..]| && s[1..][k] == rest[j];
        assert s[k + 1] == rest[j];
      }
    }
    var r := [s[0]] + rest;
    forall i, j | 0 <= i < j < |r| ensures !Less(key(r[j]), key(r[i])) {
      assert r[j] == rest[j - 1];
      if i > 0 {
        assert r[i] == rest[i - 1];
      }
    }
  }

  /** Sorting by key: the result is ordered and is a permutation of the input. */
  function SortBy<T>(s: seq<T>, key: T -> string): (r: seq<T>)
    ensures SortedBy(r, key)
    ensures multiset(r) == multiset(s)
  {
    if |s| == 0 then []
    else
      assert s == [s[0]] + s[1..];
      Insert(s[0], SortBy(s[1..], key), key)
  }
}
