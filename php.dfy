/**
 * The parts of PHP's runtime that the helper's logic leans on: the value
 * `json_decode($s, true)` produces, PHP truthiness, the `??` lookup,
 * `array_merge`, `array_pop`, `rtrim` and the case-insensitive prefix test
 * `0 === stripos($h, $n)`.
 */
module Php {
  import opened Wrappers

  /** An array key: members of a JSON object get string keys, list items 0, 1, 2, ... */
  datatype Key = IntKey(n: int) | StrKey(s: string)

  type Entries = seq<(Key, Value)>

  /** A decoded JSON document as PHP holds it when asked for associative arrays. */
  datatype Value =
    | Null
    | Bool(b: bool)
    | Int(i: int)
    | Float(f: real)
    | Str(s: string)
    | Arr(entries: Entries)

  /** What `json_decode` leaves behind: a value, or the message `json_last_error_msg()` reports. */
  datatype Decoded = Parsed(value: Value) | Malformed(message: string)

  /** `json_last_error_msg()` when the last decode raised no error. */
  const NoErrorMessage: string := "No error"

  /** A string is falsy in PHP exactly when it is "" or "0". */
  predicate StrTruthy(s: string) {
    s != "" && s != "0"
  }

  /** PHP's conversion of a decoded value to bool. */
  predicate Truthy(v: Value) {
    match v
    case Null => false
    case Bool(b) => b
    case Int(i) => i != 0
    case Float(f) => f != 0.0
    case Str(s) => StrTruthy(s)
    case Arr(entries) => |entries| > 0
  }

  predicate HasKey(es: Entries, k: Key) {
    exists j :: 0 <= j < |es| && es[j].0 == k
  }

  predicate UniqueKeys(es: Entries) {
    forall i, j :: 0 <= i < j < |es| ==> es[i].0 != es[j].0
  }

  predicate StringKeyed(es: Entries) {
    forall j :: 0 <= j < |es| ==> es[j].0.StrKey?
  }

  function KeySet(es: Entries): set<Key> {
    set j | 0 <= j < |es| :: es[j].0
  }

  /** The position of the first entry under `k`. */
  function Find(es: Entries, k: Key): (r: Option<nat>)
    ensures r.Some? ==> r.value < |es| && es[r.value].0 == k
    ensures r.Some? ==> forall j :: 0 <= j < r.value ==> es[j].0 != k
    ensures r.None? <==> !HasKey(es, k)
  {
    if es == [] then None
    else if es[0].0 == k then Some(0)
    else match Find(es[1..], k)
      case None => None
      case Some(i) => Some(i + 1)
  }

  /** The value stored under `k`, if any. */
  function ValueOf(es: Entries, k: Key): Option<Value> {
    match Find(es, k)
    case Some(j) => Some(es[j].1)
    case None => None
  }

  /**
   * `$v[$key] ?? ...` for a string key: a value only when `v` is an array
   * holding a non-null member under `key`; a scalar, a missing key and a
   * null member all fall through to the default.
   */
  function Lookup(v: Value, key: string): (r: Option<Value>)
    ensures r.Some? ==> v.Arr? && r.value != Null && (StrKey(key), r.value) in v.entries
    ensures v.Arr? && UniqueKeys(v.entries) ==>
              forall x :: (StrKey(key), x) in v.entries && x != Null ==> r == Some(x)
    ensures !v.Arr? ==> r.None?
  {
    if !v.Arr? then None
    else match ValueOf(v.entries, StrKey(key))
      case Some(x) => if x == Null then None else Some(x)
      case None => None
  }

  // ---------------------------------------------------------------- array_merge

  function IntKeyCount(es: Entries): nat {
    if es == [] then 0
    else IntKeyCount(es[..|es| - 1]) + (if es[|es| - 1].0.IntKey? then 1 else 0)
  }

  /**
   * One step of `array_merge`: an integer-keyed entry is appended under the
   * next integer key (integer keys are renumbered from 0), a string-keyed
   * entry overwrites the value of an existing key in place or is appended.
   */
  function Put(acc: Entries, e: (Key, Value)): Entries {
    match e.0
    case IntKey(_) => acc + [(IntKey(IntKeyCount(acc)), e.1)]
    case StrKey(_) =>
      match Find(acc, e.0)
      case Some(i) => acc[i := (e.0, e.1)]
      case None => acc + [e]
  }

  function PutAll(acc: Entries, es: Entries): Entries
    decreases |es|
  {
    if es == [] then acc else PutAll(Put(acc, es[0]), es[1..])
  }

  /** `array_merge($a, $b)`. */
  function ArrayMerge(a: Entries, b: Entries): Entries {
    PutAll([], a + b)
  }

  /** `a`, with the value of every key that `b` also holds taken from `b`. */
  function Overridden(a: Entries, b: Entries): (r: Entries)
    ensures |r| == |a|
  {
    if a == [] then []
    else [(a[0].0, ValueOf(b, a[0].0).GetOr(a[0].1))] + Overridden(a[1..], b)
  }

  /** The entries of `b` whose key `a` does not hold, in `b`'s order. */
  function NewEntries(b: Entries, a: Entries): Entries {
    if b == [] then []
    else (if HasKey(a, b[0].0) then [] else [b[0]]) + NewEntries(b[1..], a)
  }

  lemma {:induction false} PutAllAppend(acc: Entries, a: Entries, b: Entries)
    ensures PutAll(acc, a + b) == PutAll(PutAll(acc, a), b)
    decreases |a|
  {
    if a == [] {
      assert a + b == b;
    } else {
      assert (a + b)[0] == a[0];
      assert (a + b)[1..] == a[1..] + b;
      PutAllAppend(Put(acc, a[0]), a[1..], b);
    }
  }

  /** Merging string keys that are all new appends them as they are. */
  lemma {:induction false} PutAllFresh(acc: Entries, a: Entries)
    requires StringKeyed(a) && UniqueKeys(a)
    requires forall j :: 0 <= j < |a| ==> !HasKey(acc, a[j].0)
    ensures PutAll(acc, a) == acc + a
    decreases |a|
  {
    if a != [] {
      var acc' := acc + [a[0]];
      assert Put(acc, a[0]) == acc';
      forall j | 0 <= j < |a[1..]|
        ensures !HasKey(acc', a[1..][j].0)
      {
        assert a[1..][j] == a[j + 1];
      }
      PutAllFresh(acc', a[1..]);
      assert acc' + a[1..] == acc + a;
    }
  }

  lemma {:induction false} OverriddenAt(a: Entries, b: Entries, j: nat)
    requires j < |a|
    ensures |Overridden(a, b)| == |a|
    ensures Overridden(a, b)[j] == (a[j].0, ValueOf(b, a[j].0).GetOr(a[j].1))
    decreases |a|
  {
    if j > 0 {
      OverriddenAt(a[1..], b, j - 1);
    } else if |a| > 1 {
      OverriddenAt(a[1..], b, 0);
    }
  }

  lemma OverriddenByNothing(a: Entries)
    ensures Overridden(a, []) == a
  {
  }

  lemma {:induction false} NewEntriesSame(b: Entries, a1: Entries, a2: Entries)
    requires forall j :: 0 <= j < |b| ==> (HasKey(a1, b[j].0) <==> HasKey(a2, b[j].0))
    ensures NewEntries(b, a1) == NewEntries(b, a2)
    decreases |b|
  {
    if b != [] {
      forall j | 0 <= j < |b[1..]|
        ensures HasKey(a1, b[1..][j].0) <==> HasKey(a2, b[1..][j].0)
      {
        assert b[1..][j] == b[j + 1];
      }
      NewEntriesSame(b[1..], a1, a2);
    }
  }

  /** In a sequence with unique keys, the head's key does not recur in the tail. */
  lemma HeadKeyNotInTail(b: Entries)
    requires b != [] && UniqueKeys(b)
    ensures !HasKey(b[1..], b[0].0)
    ensures UniqueKeys(b[1..])
    ensures forall x :: x != b[0].0 ==> ValueOf(b, x) == ValueOf(b[1..], x)
  {
  }

  /** Merging `b[0]` over an existing key of `acc`. */
  lemma PutOverExisting(acc: Entries, b: Entries, i: nat)
    requires UniqueKeys(acc) && b != [] && UniqueKeys(b)
    requires Find(acc, b[0].0) == Some(i)
    ensures UniqueKeys(acc[i := b[0]])
    ensures Overridden(acc[i := b[0]], b[1..]) == Overridden(acc, b)
    ensures NewEntries(b[1..], acc[i := b[0]]) == NewEntries(b, acc)
  {
    var acc', b' := acc[i := b[0]], b[1..];
    HeadKeyNotInTail(b);
    forall j | 0 <= j < |acc|
      ensures Overridden(acc', b')[j] == Overridden(acc, b)[j]
    {
      OverriddenAt(acc', b', j);
      OverriddenAt(acc, b, j);
    }
    forall j | 0 <= j < |b'|
      ensures HasKey(acc', b'[j].0) <==> HasKey(acc, b'[j].0)
    {
      if HasKey(acc, b'[j].0) {
        var m :| 0 <= m < |acc| && acc[m].0 == b'[j].0;
        assert acc'[m].0 == b'[j].0;
      }
      if HasKey(acc', b'[j].0) {
        var m :| 0 <= m < |acc'| && acc'[m].0 == b'[j].0;
        assert acc[m].0 == b'[j].0;
      }
    }
    NewEntriesSame(b', acc', acc);
  }

  /** Appending a key that no entry of `b` holds leaves the new entries of `b` unchanged. */
  lemma NewEntriesAfterAppend(b: Entries, acc: Entries, e: (Key, Value))
    requires !HasKey(b, e.0)
    ensures NewEntries(b, acc + [e]) == NewEntries(b, acc)
  {
    forall j | 0 <= j < |b|
      ensures HasKey(acc + [e], b[j].0) <==> HasKey(acc, b[j].0)
    {
      assert b[j].0 != e.0;
      if HasKey(acc + [e], b[j].0) {
        var m :| 0 <= m < |acc + [e]| && (acc + [e])[m].0 == b[j].0;
        assert m < |acc| && acc[m].0 == b[j].0;
      }
      if HasKey(acc, b[j].0) {
        var m :| 0 <= m < |acc| && acc[m].0 == b[j].0;
        assert (acc + [e])[m].0 == b[j].0;
      }
    }
    NewEntriesSame(b, acc + [e], acc);
  }

  lemma OverriddenAfterMissing(acc: Entries, b: Entries)
    requires b != [] && !HasKey(acc, b[0].0) && !HasKey(b[1..], b[0].0)
    requires forall x :: x != b[0].0 ==> ValueOf(b, x) == ValueOf(b[1..], x)
    ensures Overridden(acc + [b[0]], b[1..]) == Overridden(acc, b) + [b[0]]
  {
    var acc', b' := acc + [b[0]], b[1..];
    var left, right := Overridden(acc', b'), Overridden(acc, b) + [b[0]];
    OverriddenAt(acc', b', |acc|);
    assert left[|acc|] == right[|acc|];
    forall j | 0 <= j < |acc|
      ensures left[j] == right[j]
    {
      OverriddenAt(acc', b', j);
      OverriddenAt(acc, b, j);
      assert acc[j].0 != b[0].0;
    }
  }

  /** Merging `b[0]` when `acc` lacks its key. */
  lemma PutOverMissing(acc: Entries, b: Entries)
    requires UniqueKeys(acc) && b != [] && UniqueKeys(b)
    requires !HasKey(acc, b[0].0)
    ensures UniqueKeys(acc + [b[0]])
    ensures Overridden(acc + [b[0]], b[1..]) == Overridden(acc, b) + [b[0]]
    ensures NewEntries(b, acc) == [b[0]] + NewEntries(b[1..], acc + [b[0]])
  {
    HeadKeyNotInTail(b);
    OverriddenAfterMissing(acc, b);
    NewEntriesAfterAppend(b[1..], acc, b[0]);
  }

  lemma {:induction false} PutAllOverride(acc: Entries, b: Entries)
    requires UniqueKeys(acc) && StringKeyed(b) && UniqueKeys(b)
    ensures PutAll(acc, b) == Overridden(acc, b) + NewEntries(b, acc)
    decreases |b|
  {
    if b == [] {
      OverriddenByNothing(acc);
    } else {
      var e, b' := b[0], b[1..];
      HeadKeyNotInTail(b);
      assert StringKeyed(b') && e.0.StrKey?;
      assert PutAll(acc, b) == PutAll(Put(acc, e), b');
      match Find(acc, e.0)
      case Some(i) =>
        assert Put(acc, e) == acc[i := e];
        PutOverExisting(acc, b, i);
        PutAllOverride(acc[i := e], b');
      case None =>
        assert Put(acc, e) == acc + [e];
        PutOverMissing(acc, b);
        PutAllOverride(acc + [e], b');
    }
  }

  /**
   * With string keys only, `array_merge($a, $b)` keeps the keys of `a` in
   * their order, each with `b`'s value when `b` holds the key, and then
   * appends the entries of `b` whose key `a` lacks, in `b`'s order.
   */
  lemma ArrayMergeStringKeys(a: Entries, b: Entries)
    requires StringKeyed(a) && UniqueKeys(a) && StringKeyed(b) && UniqueKeys(b)
    ensures ArrayMerge(a, b) == Overridden(a, b) + NewEntries(b, a)
  {
    PutAllAppend([], a, b);
    PutAllFresh([], a);
    assert [] + a == a;
    PutAllOverride(a, b);
  }

  lemma {:induction false} NewEntriesMembers(b: Entries, a: Entries)
    requires UniqueKeys(b)
    ensures forall e :: e in NewEntries(b, a) <==> e in b && !HasKey(a, e.0)
    ensures UniqueKeys(NewEntries(b, a))
    decreases |b|
  {
    if b != [] {
      HeadKeyNotInTail(b);
      NewEntriesMembers(b[1..], a);
      var rest := NewEntries(b[1..], a);
      assert b == [b[0]] + b[1..];
      if !HasKey(a, b[0].0) {
        forall j | 0 < j < |[b[0]] + rest|
          ensures ([b[0]] + rest)[j].0 != b[0].0
        {
          assert ([b[0]] + rest)[j] == rest[j - 1];
          assert rest[j - 1] in b[1..];
        }
      }
    }
  }

  lemma ValueOfMember(b: Entries, k: Key, v: Value)
    requires UniqueKeys(b) && (k, v) in b
    ensures ValueOf(b, k) == Some(v)
  {
  }

  lemma OverriddenPrefix(a: Entries, b: Entries, added: Entries)
    ensures |Overridden(a, b) + added| == |a| + |added|
    ensures forall j :: 0 <= j < |a| ==>
              (Overridden(a, b) + added)[j] == (a[j].0, ValueOf(b, a[j].0).GetOr(a[j].1))
    ensures (Overridden(a, b) + added)[|a|..] == added
  {
  }

  lemma MergedCovers(a: Entries, b: Entries)
    requires UniqueKeys(b)
    ensures forall e :: e in b ==> e in Overridden(a, b) + NewEntries(b, a)
    ensures forall e :: e in a && !HasKey(b, e.0) ==> e in Overridden(a, b) + NewEntries(b, a)
  {
    var r := Overridden(a, b) + NewEntries(b, a);
    OverriddenPrefix(a, b, NewEntries(b, a));
    NewEntriesMembers(b, a);
    forall e | e in b
      ensures e in r
    {
      if HasKey(a, e.0) {
        var j :| 0 <= j < |a| && a[j].0 == e.0;
        ValueOfMember(b, e.0, e.1);
        assert r[j] == e;
      } else {
        assert e in NewEntries(b, a);
      }
    }
    forall e | e in a && !HasKey(b, e.0)
      ensures e in r
    {
      var j :| 0 <= j < |a| && a[j] == e;
      assert r[j] == e;
    }
  }

  lemma MergedOnly(a: Entries, b: Entries)
    requires UniqueKeys(b)
    ensures forall e :: e in Overridden(a, b) + NewEntries(b, a) ==> e in b || (e in a && !HasKey(b, e.0))
  {
    var r := Overridden(a, b) + NewEntries(b, a);
    OverriddenPrefix(a, b, NewEntries(b, a));
    NewEntriesMembers(b, a);
    forall e | e in r
      ensures e in b || (e in a && !HasKey(b, e.0))
    {
      var j :| 0 <= j < |r| && r[j] == e;
      if j < |a| {
        match Find(b, a[j].0)
        case Some(m) =>
          assert e == b[m];
        case None =>
          assert e == a[j];
      } else {
        assert e == r[|a|..][j - |a|];
      }
    }
  }

  lemma MergedUnique(a: Entries, b: Entries)
    requires UniqueKeys(a) && UniqueKeys(b)
    ensures UniqueKeys(Overridden(a, b) + NewEntries(b, a))
  {
    var added := NewEntries(b, a);
    var r := Overridden(a, b) + added;
    OverriddenPrefix(a, b, added);
    NewEntriesMembers(b, a);
    forall i, j | 0 <= i < j < |r|
      ensures r[i].0 != r[j].0
    {
      if j < |a| {
        assert r[i].0 == a[i].0 && r[j].0 == a[j].0;
      } else if i < |a| {
        assert r[j] == r[|a|..][j - |a|];
        assert r[j] in added;
        assert r[i].0 == a[i].0;
      } else {
        assert r[i] == r[|a|..][i - |a|] && r[j] == r[|a|..][j - |a|];
      }
    }
  }

  lemma MergedKeySet(a: Entries, b: Entries, r: Entries)
    requires forall e :: e in b ==> e in r
    requires forall e :: e in a && !HasKey(b, e.0) ==> e in r
    requires forall e :: e in r ==> e in b || (e in a && !HasKey(b, e.0))
    ensures KeySet(r) == KeySet(a) + KeySet(b)
  {
  }

  /** The entries of `array_merge($a, $b)`, for arrays with unique string keys. */
  lemma ArrayMergeEntries(a: Entries, b: Entries)
    requires StringKeyed(a) && UniqueKeys(a) && StringKeyed(b) && UniqueKeys(b)
    ensures UniqueKeys(ArrayMerge(a, b))
    ensures KeySet(ArrayMerge(a, b)) == KeySet(a) + KeySet(b)
    ensures forall e :: e in b ==> e in ArrayMerge(a, b)
    ensures forall e :: e in a && !HasKey(b, e.0) ==> e in ArrayMerge(a, b)
    ensures forall e :: e in ArrayMerge(a, b) ==> e in b || (e in a && !HasKey(b, e.0))
    ensures |ArrayMerge(a, b)| >= |a|
    ensures forall j :: 0 <= j < |a| ==> ArrayMerge(a, b)[j].0 == a[j].0
  {
    ArrayMergeStringKeys(a, b);
    OverriddenPrefix(a, b, NewEntries(b, a));
    MergedCovers(a, b);
    MergedOnly(a, b);
    MergedUnique(a, b);
    MergedKeySet(a, b, ArrayMerge(a, b));
  }

  predicate IntKeyed(es: Entries) {
    forall j :: 0 <= j < |es| ==> es[j].0.IntKey?
  }

  /** The entries of `es` renumbered 0, 1, 2, ... in order. */
  function Renumbered(es: Entries): (r: Entries)
    ensures |r| == |es|
    ensures forall j :: 0 <= j < |es| ==> r[j] == (IntKey(j), es[j].1)
  {
    seq(|es|, j requires 0 <= j < |es| => (IntKey(j), es[j].1))
  }

  lemma {:induction false} RenumberedIntKeyCount(es: Entries)
    ensures IntKeyCount(Renumbered(es)) == |es|
    decreases |es|
  {
    if es != [] {
      var n := |es| - 1;
      assert Renumbered(es)[..n] == Renumbered(es[..n]);
      RenumberedIntKeyCount(es[..n]);
    }
  }

  lemma {:induction false} PutAllIntKeys(done: Entries, es: Entries)
    requires IntKeyed(es)
    ensures PutAll(Renumbered(done), es) == Renumbered(done + es)
    decreases |es|
  {
    if es != [] {
      RenumberedIntKeyCount(done);
      assert Put(Renumbered(done), es[0]) == Renumbered(done + [es[0]]);
      PutAllIntKeys(done + [es[0]], es[1..]);
      assert done + [es[0]] + es[1..] == done + es;
    }
  }

  /**
   * `array_merge` of two integer-keyed arrays renumbers: the values of `a`
   * then those of `b`, under the keys 0, 1, 2, ...
   */
  lemma ArrayMergeLists(a: Entries, b: Entries)
    requires IntKeyed(a) && IntKeyed(b)
    ensures ArrayMerge(a, b) == seq(|a| + |b|, i requires 0 <= i < |a| + |b| => (IntKey(i), (a + b)[i].1))
  {
    assert IntKeyed(a + b);
    assert Renumbered([]) == [];
    PutAllIntKeys([], a + b);
    assert [] + (a + b) == a + b;
  }

  // ------------------------------------------------------------------ array_pop

  /** `$x = array_pop($s)`: the last element (null for an empty array) and what is left. */
  function ArrayPop<T>(s: seq<T>): (r: (Option<T>, seq<T>))
    ensures s == [] ==> r == (None, [])
    ensures s != [] ==> r.0 == Some(s[|s| - 1]) && r.1 + [s[|s| - 1]] == s
  {
    if s == [] then (None, []) else (Some(s[|s| - 1]), s[..|s| - 1])
  }

  // ---------------------------------------------------------------------- rtrim

  /** `rtrim($s, $c)` for a one-character mask: strips every trailing `c`. */
  function RTrim(s: string, c: char): (r: string)
    ensures r <= s
    ensures r == [] || r[|r| - 1] != c
    ensures forall i :: |r| <= i < |s| ==> s[i] == c
  {
    if s != [] && s[|s| - 1] == c then RTrim(s[..|s| - 1], c) else s
  }

  lemma RTrimIdempotent(s: string, c: char)
    ensures RTrim(RTrim(s, c), c) == RTrim(s, c)
  {
  }

  // --------------------------------------------------------------------- stripos

  function LowerAscii(ch: char): char {
    if 'A' <= ch <= 'Z' then (ch as int + 32) as char else ch
  }

  /** `0 === stripos($haystack, $needle)` for a non-empty needle: a prefix, ignoring ASCII case. */
  predicate StartsWithIgnoringCase(haystack: string, needle: string) {
    |needle| <= |haystack| &&
    forall i :: 0 <= i < |needle| ==> LowerAscii(haystack[i]) == LowerAscii(needle[i])
  }
}
