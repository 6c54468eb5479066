/**
 * The REST signing string: the parameters sorted by key, each rendered as
 * `key=value`, joined with `&`.
 *
 * Next to it stands an independent reader of that string (split on `&`, then
 * cut each piece at its first `=`), and the lemmas that relate the two.
 */
module Canonical {
  import LexOrder

  // ---------------------------------------------------------------------------
  // Sorting the keys

  /** `k` is the smallest key of `keys` in Python's string order. */
  predicate IsLeast(k: string, keys: set<string>) {
    k in keys && forall j :: j in keys && j != k ==> LexOrder.Less(k, j)
  }

  lemma {:induction false} LeastExists(keys: set<string>)
    requires keys != {}
    ensures exists k :: IsLeast(k, keys)
    decreases keys
  {
    var x :| x in keys;
    if keys == {x} {
      assert IsLeast(x, keys);
    } else {
      LeastExists(keys - {x});
      var m :| IsLeast(m, keys - {x});
      LexOrder.Total(x, m);
      if LexOrder.Less(x, m) {
        forall j | j in keys && j != x
          ensures LexOrder.Less(x, j)
        {
          if j != m {
            LexOrder.Transitive(x, m, j);
          }
        }
        assert IsLeast(x, keys);
      } else {
        assert IsLeast(m, keys);
      }
    }
  }

  lemma LeastUnique(keys: set<string>)
    ensures forall a, b :: IsLeast(a, keys) && IsLeast(b, keys) ==> a == b
  {
    forall a, b | IsLeast(a, keys) && IsLeast(b, keys)
      ensures a == b
    {
      if a != b {
        LexOrder.Asymmetric(a, b);
      }
    }
  }

  function MinKey(keys: set<string>): (k: string)
    requires keys != {}
    ensures IsLeast(k, keys)
  {
    LeastExists(keys);
    LeastUnique(keys);
    var k :| IsLeast(k, keys);
    k
  }

  predicate StrictlyAscending(s: seq<string>) {
    forall i, j :: 0 <= i < j < |s| ==> LexOrder.Less(s[i], s[j])
  }

  /** The keys of a parameter map in the order `sorted` gives them: every key once, strictly ascending. */
  function SortedKeys(keys: set<string>): (r: seq<string>)
    ensures StrictlyAscending(r)
    ensures forall k :: k in r <==> k in keys
    ensures |r| == |keys|
    decreases keys
  {
    if keys == {} then []
    else
      var k := MinKey(keys);
      [k] + SortedKeys(keys - {k})
  }

  /** The head of a strictly ascending listing of a key set is its least key. */
  lemma AscendingHeadIsLeast(s: seq<string>, keys: set<string>)
    requires StrictlyAscending(s) && |s| > 0
    requires forall k :: k in s <==> k in keys
    ensures keys != {} && s[0] == MinKey(keys)
  {
    assert s[0] in keys;
    var k := MinKey(keys);
    assert k in s;
    var j :| 0 <= j < |s| && s[j] == k;
    if s[0] != k {
      assert LexOrder.Less(k, s[0]);
      assert j > 0 && LexOrder.Less(s[0], k);
      LexOrder.Asymmetric(k, s[0]);
      assert false;
    }
  }

  /** Dropping the head of a strictly ascending listing lists the other keys. */
  lemma AscendingTail(s: seq<string>, keys: set<string>)
    requires StrictlyAscending(s) && |s| > 0
    requires forall k :: k in s <==> k in keys
    ensures StrictlyAscending(s[1..])
    ensures forall x :: x in s[1..] <==> x in keys - {s[0]}
  {
    forall x
      ensures x in s[1..] <==> x in keys - {s[0]}
    {
      if x in s[1..] {
        var i :| 1 <= i < |s| && s[i] == x;
        assert LexOrder.Less(s[0], s[i]);
        LexOrder.Irreflexive(x);
      }
      if x in keys - {s[0]} {
        var i :| 0 <= i < |s| && s[i] == x;
        assert i != 0;
        assert s[1..][i - 1] == x;
      }
    }
  }

  /**
   * A strictly ascending listing of a key set is unique. Whatever order the
   * caller inserted the parameters in, sorting them yields SortedKeys.
   */
  lemma {:induction false} SortedKeysUnique(s: seq<string>, keys: set<string>)
    requires StrictlyAscending(s)
    requires forall k :: k in s <==> k in keys
    ensures s == SortedKeys(keys)
    decreases |s|
  {
    if |s| == 0 {
      assert keys == {};
    } else {
      AscendingHeadIsLeast(s, keys);
      AscendingTail(s, keys);
      SortedKeysUnique(s[1..], keys - {s[0]});
      calc {
        SortedKeys(keys);
        [s[0]] + SortedKeys(keys - {s[0]});
        [s[0]] + s[1..];
        s;
      }
    }
  }

  // ---------------------------------------------------------------------------
  // Rendering and joining

  /** One entry of the signing string: the key, `=`, then the value. */
  function Entry(key: string, value: string): string {
    key + "=" + value
  }

  /** The entries for the keys `ks`, in that order (the list comprehension). */
  function Entries(m: map<string, string>, ks: seq<string>): (r: seq<string>)
    requires forall k :: k in ks ==> k in m
    ensures |r| == |ks|
    ensures forall i :: 0 <= i < |ks| ==> r[i] == Entry(ks[i], m[ks[i]])
  {
    if ks == [] then [] else [Entry(ks[0], m[ks[0]])] + Entries(m, ks[1..])
  }

  /** Python's `sep.join(parts)`. */
  function Join(parts: seq<string>, sep: string): string {
    if |parts| == 0 then ""
    else if |parts| == 1 then parts[0]
    else parts[0] + sep + Join(parts[1..], sep)
  }

  function CanonicalEntries(params: map<string, string>): seq<string> {
    Entries(params, SortedKeys(params.Keys))
  }

  /** The string that is signed for a REST request. */
  function CanonicalString(params: map<string, string>): string {
    Join(CanonicalEntries(params), "&")
  }

  /** Every parameter of the map is rendered, as `key=value`, in the signing string. */
  lemma EntryInCanonical(m: map<string, string>, k: string)
    requires k in m
    ensures Entry(k, m[k]) in CanonicalEntries(m)
  {
    var ks := SortedKeys(m.Keys);
    var i :| 0 <= i < |ks| && ks[i] == k;
    assert CanonicalEntries(m)[i] == Entry(k, m[k]);
  }

  /** The total length of some strings. */
  function SumLen(parts: seq<string>): nat {
    if parts == [] then 0 else |parts[0]| + SumLen(parts[1..])
  }

  lemma {:induction false} SumLenAppend(a: seq<string>, b: seq<string>)
    ensures SumLen(a + b) == SumLen(a) + SumLen(b)
    decreases |a|
  {
    if a == [] {
      assert a + b == b;
    } else {
      assert (a + b)[1..] == a[1..] + b;
      SumLenAppend(a[1..], b);
    }
  }

  /** Taking one part out of a list lowers the total length by that part's length. */
  lemma SumLenWithout(parts: seq<string>, i: nat)
    requires i < |parts|
    ensures SumLen(parts) == SumLen(parts[..i] + parts[i + 1..]) + |parts[i]|
  {
    assert parts == parts[..i] + [parts[i]] + parts[i + 1..];
    SumLenAppend(parts[..i] + [parts[i]], parts[i + 1..]);
    SumLenAppend(parts[..i], [parts[i]]);
    SumLenAppend(parts[..i], parts[i + 1..]);
    assert SumLen([parts[i]]) == |parts[i]|;
  }

  /** Joining `n` parts with `&` adds `n - 1` characters to their total length. */
  lemma {:induction false} JoinLength(parts: seq<string>)
    requires |parts| >= 1
    ensures |Join(parts, "&")| == SumLen(parts) + |parts| - 1
    decreases |parts|
  {
    if |parts| > 1 {
      JoinLength(parts[1..]);
    }
  }

  /** Cutting one element out of a strictly ascending list leaves it strictly ascending, without that element. */
  lemma AscendingWithout(s: seq<string>, i: nat)
    requires StrictlyAscending(s) && i < |s|
    ensures StrictlyAscending(s[..i] + s[i + 1..])
    ensures forall k :: k in s[..i] + s[i + 1..] <==> k in s && k != s[i]
  {
    var t := s[..i] + s[i + 1..];
    forall a, b | 0 <= a < b < |t|
      ensures LexOrder.Less(t[a], t[b])
    {
      var a' := if a < i then a else a + 1;
      var b' := if b < i then b else b + 1;
      assert t[a] == s[a'] && t[b] == s[b'];
    }
    forall k
      ensures k in t <==> k in s && k != s[i]
    {
      if k in t {
        var j :| 0 <= j < |t| && t[j] == k;
        var j' := if j < i then j else j + 1;
        assert s[j'] == k;
        if j' < i {
          assert LexOrder.Less(s[j'], s[i]);
        } else {
          assert LexOrder.Less(s[i], s[j']);
        }
        LexOrder.Irreflexive(k);
      }
      if k in s && k != s[i] {
        var j :| 0 <= j < |s| && s[j] == k;
        if j < i {
          assert t[j] == k;
        } else {
          assert t[j - 1] == k;
        }
      }
    }
  }

  /** Leaving out the key `x` leaves it out of the sorted listing and keeps the order of the rest. */
  lemma SortedKeysWithout(keys: set<string>, x: string, i: nat)
    requires i < |SortedKeys(keys)| && SortedKeys(keys)[i] == x
    ensures SortedKeys(keys - {x}) == SortedKeys(keys)[..i] + SortedKeys(keys)[i + 1..]
  {
    var s := SortedKeys(keys);
    AscendingWithout(s, i);
    SortedKeysUnique(s[..i] + s[i + 1..], keys - {x});
  }

  /** The entries for a listing without `ks[i]` are the entries for `ks` without the `i`-th. */
  lemma EntriesWithout(m: map<string, string>, ks: seq<string>, i: nat)
    requires forall k :: k in ks ==> k in m
    requires i < |ks|
    requires ks[i] !in ks[..i] + ks[i + 1..]
    ensures Entries(m - {ks[i]}, ks[..i] + ks[i + 1..]) == Entries(m, ks)[..i] + Entries(m, ks)[i + 1..]
  {
    var t := ks[..i] + ks[i + 1..];
    var es := Entries(m, ks);
    var fs := Entries(m - {ks[i]}, t);
    forall j | 0 <= j < |fs|
      ensures fs[j] == (es[..i] + es[i + 1..])[j]
    {
      var j' := if j < i then j else j + 1;
      assert t[j] == ks[j'];
    }
  }

  /** Leaving out the `i`-th key of the sorted listing leaves out the `i`-th entry. */
  lemma CanonicalEntriesWithout(m: map<string, string>, i: nat)
    requires i < |SortedKeys(m.Keys)|
    ensures var es := CanonicalEntries(m);
      CanonicalEntries(m - {SortedKeys(m.Keys)[i]}) == es[..i] + es[i + 1..]
  {
    var s := SortedKeys(m.Keys);
    var x := s[i];
    assert (m - {x}).Keys == m.Keys - {x};
    SortedKeysWithout(m.Keys, x, i);
    AscendingWithout(s, i);
    EntriesWithout(m, s, i);
  }

  /**
   * Removing one parameter shortens the signing string by exactly its
   * `key=value` entry, and by the `&` before or after it when another entry
   * remains. So the signing string of every map changes when a key is removed.
   */
  lemma CanonicalStringWithoutKey(m: map<string, string>, x: string)
    requires x in m
    ensures |CanonicalString(m)| == |CanonicalString(m - {x})| + |Entry(x, m[x])| + (if |m| >= 2 then 1 else 0)
  {
    var s := SortedKeys(m.Keys);
    var i :| 0 <= i < |s| && s[i] == x;
    var es := CanonicalEntries(m);
    CanonicalEntriesWithout(m, i);
    assert es[i] == Entry(x, m[x]);
    JoinWithoutPart(es, i);
  }

  /** Leaving out the `i`-th part shortens the joined string by that part and one separator, if any remains. */
  lemma JoinWithoutPart(parts: seq<string>, i: nat)
    requires i < |parts|
    ensures |Join(parts, "&")| == |Join(parts[..i] + parts[i + 1..], "&")| + |parts[i]| + (if |parts| >= 2 then 1 else 0)
  {
    var rest := parts[..i] + parts[i + 1..];
    SumLenWithout(parts, i);
    JoinLength(parts);
    if |parts| >= 2 {
      JoinLength(rest);
    } else {
      assert rest == [];
    }
  }

  /** Joins of equally many parts that differ only in one part, of the same length, differ. */
  lemma {:induction false} JoinDiffersAt(a: seq<string>, b: seq<string>, i: nat)
    requires |a| == |b| && i < |a|
    requires forall j :: 0 <= j < |a| && j != i ==> a[j] == b[j]
    requires |a[i]| == |b[i]| && a[i] != b[i]
    ensures Join(a, "&") != Join(b, "&")
    decreases i
  {
    if i == 0 {
      var k :| 0 <= k < |a[0]| && a[0][k] != b[0][k];
      assert Join(a, "&")[k] == a[0][k];
      assert Join(b, "&")[k] == b[0][k];
    } else {
      JoinDiffersAt(a[1..], b[1..], i - 1);
      var n := |a[0]| + 1;
      assert Join(a, "&")[n..] == Join(a[1..], "&");
      assert Join(b, "&")[n..] == Join(b[1..], "&");
    }
  }

  /** A strictly ascending listing holds each key at one position only. */
  lemma AscendingDistinct(s: seq<string>, i: nat, j: nat)
    requires StrictlyAscending(s) && i < |s| && j < |s| && i != j
    ensures s[i] != s[j]
  {
    if i < j {
      assert LexOrder.Less(s[i], s[j]);
    } else {
      assert LexOrder.Less(s[j], s[i]);
    }
    LexOrder.Irreflexive(s[i]);
  }

  /** Giving the key at position `i`, which occurs nowhere else in `ks`, a new value changes the `i`-th entry and no other. */
  lemma EntriesUpdate(m: map<string, string>, ks: seq<string>, v: string, i: nat)
    requires forall k :: k in ks ==> k in m
    requires i < |ks| && forall j :: 0 <= j < |ks| && j != i ==> ks[j] != ks[i]
    ensures var e1, e2 := Entries(m, ks), Entries(m[ks[i] := v], ks);
      && |e1| == |e2| && e1[i] == Entry(ks[i], m[ks[i]]) && e2[i] == Entry(ks[i], v)
      && forall j :: 0 <= j < |e1| && j != i ==> e1[j] == e2[j]
  {
  }

  /** Giving the `i`-th sorted key a new value changes the `i`-th entry and no other. */
  lemma CanonicalEntriesUpdate(m: map<string, string>, v: string, i: nat)
    requires i < |SortedKeys(m.Keys)|
    ensures var x := SortedKeys(m.Keys)[i];
      var e1, e2 := CanonicalEntries(m), CanonicalEntries(m[x := v]);
      && |e1| == |e2| && e1[i] == Entry(x, m[x]) && e2[i] == Entry(x, v)
      && forall j :: 0 <= j < |e1| && j != i ==> e1[j] == e2[j]
  {
    var ks := SortedKeys(m.Keys);
    assert m[ks[i] := v].Keys == m.Keys;
    forall j | 0 <= j < |ks| && j != i
      ensures ks[j] != ks[i]
    {
      AscendingDistinct(ks, i, j);
    }
    EntriesUpdate(m, ks, v, i);
  }

  /**
   * Changing the value of one parameter changes the signing string, whatever
   * characters the keys and values hold: a value of another length changes
   * its length, one of the same length changes the characters at its place.
   */
  lemma ValueChangeChangesString(m: map<string, string>, x: string, v: string)
    requires x in m && m[x] != v
    ensures CanonicalString(m) != CanonicalString(m[x := v])
  {
    if |m[x]| == |v| {
      SameLengthValueChange(m, x, v);
    } else {
      OtherLengthValueChange(m, x, v);
    }
  }

  lemma SameLengthValueChange(m: map<string, string>, x: string, v: string)
    requires x in m && m[x] != v && |m[x]| == |v|
    ensures CanonicalString(m) != CanonicalString(m[x := v])
  {
    var ks := SortedKeys(m.Keys);
    var i :| 0 <= i < |ks| && ks[i] == x;
    CanonicalEntriesUpdate(m, v, i);
    EntryValueDiffers(x, m[x], v);
    JoinDiffersAt(CanonicalEntries(m), CanonicalEntries(m[x := v]), i);
  }

  lemma OtherLengthValueChange(m: map<string, string>, x: string, v: string)
    requires x in m && |m[x]| != |v|
    ensures |CanonicalString(m)| != |CanonicalString(m[x := v])|
  {
    var m2 := m[x := v];
    assert m - {x} == m2 - {x};
    assert m.Keys == m2.Keys;
    CanonicalStringWithoutKey(m, x);
    CanonicalStringWithoutKey(m2, x);
  }

  /** Two entries for one key with different values of one length have one length and differ. */
  lemma EntryValueDiffers(x: string, v1: string, v2: string)
    requires v1 != v2 && |v1| == |v2|
    ensures |Entry(x, v1)| == |Entry(x, v2)| && Entry(x, v1) != Entry(x, v2)
  {
    assert Entry(x, v1)[|x| + 1..] == v1;
    assert Entry(x, v2)[|x| + 1..] == v2;
  }

  // ---------------------------------------------------------------------------
  // Reading the signing string back

  /** Python's `s.split(sep)`: the pieces between consecutive separators. */
  function Split(s: string, sep: char): (r: seq<string>)
    ensures |r| >= 1
    decreases |s|
  {
    if |s| == 0 then [""]
    else
      var rest := Split(s[1..], sep);
      if s[0] == sep then [""] + rest else [[s[0]] + rest[0]] + rest[1..]
  }

  /** Python's `s.partition(sep)` without the separator: before and after the first `sep`. */
  function Partition(s: string, sep: char): (string, string)
    decreases |s|
  {
    if |s| == 0 then ("", "")
    else if s[0] == sep then ("", s[1..])
    else
      var (before, after) := Partition(s[1..], sep);
      ([s[0]] + before, after)
  }

  function ParseEntries(parts: seq<string>): (r: seq<(string, string)>)
    ensures |r| == |parts|
  {
    if parts == [] then [] else [Partition(parts[0], '=')] + ParseEntries(parts[1..])
  }

  /** A dictionary built from key/value pairs; an earlier pair wins over a later one with the same key. */
  function ToMap(pairs: seq<(string, string)>): map<string, string> {
    if pairs == [] then map[] else ToMap(pairs[1..])[pairs[0].0 := pairs[0].1]
  }

  /** The parameters a verifier reads off a signing string. */
  function ParseCanonical(s: string): map<string, string> {
    ToMap(ParseEntries(Split(s, '&')))
  }

  /** No key and no value holds `&`: the separators in the signing string are exactly the joins. */
  predicate SeparatorFree(m: map<string, string>) {
    forall k :: k in m ==> '&' !in k && '&' !in m[k]
  }

  /** Separator-free, and no key holds `=`: the rendering then cannot be misread. */
  predicate Unambiguous(m: map<string, string>) {
    SeparatorFree(m) && forall k :: k in m ==> '=' !in k
  }

  lemma {:induction false} SplitWithoutSeparator(p: string, sep: char)
    requires sep !in p
    ensures Split(p, sep) == [p]
    decreases |p|
  {
    if |p| > 0 {
      SplitWithoutSeparator(p[1..], sep);
      assert [p[0]] + p[1..] == p;
    }
  }

  lemma {:induction false} SplitAtFirstSeparator(p: string, t: string, sep: char)
    requires sep !in p
    ensures Split(p + [sep] + t, sep) == [p] + Split(t, sep)
    decreases |p|
  {
    var s := p + [sep] + t;
    if |p| == 0 {
      assert s[1..] == t;
    } else {
      assert s[1..] == p[1..] + [sep] + t;
      SplitAtFirstSeparator(p[1..], t, sep);
      assert [p[0]] + p[1..] == p;
    }
  }

  /** Splitting undoes joining when no part holds the separator. */
  lemma {:induction false} SplitJoin(parts: seq<string>, sep: char)
    requires |parts| >= 1
    requires forall i :: 0 <= i < |parts| ==> sep !in parts[i]
    ensures Split(Join(parts, [sep]), sep) == parts
    decreases |parts|
  {
    if |parts| == 1 {
      SplitWithoutSeparator(parts[0], sep);
    } else {
      SplitAtFirstSeparator(parts[0], Join(parts[1..], [sep]), sep);
      SplitJoin(parts[1..], sep);
      assert [parts[0]] + parts[1..] == parts;
    }
  }

  /** With `n` parts free of the separator, the joined string holds exactly `n - 1` separators. */
  lemma {:induction false} JoinSeparatorCount(parts: seq<string>, sep: char)
    requires |parts| >= 1
    requires forall i :: 0 <= i < |parts| ==> sep !in parts[i]
    ensures multiset(Join(parts, [sep]))[sep] == |parts| - 1
    decreases |parts|
  {
    assert sep !in multiset(parts[0]);
    if |parts| > 1 {
      JoinSeparatorCount(parts[1..], sep);
      assert multiset(parts[0] + [sep] + Join(parts[1..], [sep]))
          == multiset(parts[0]) + multiset{sep} + multiset(Join(parts[1..], [sep]));
    }
  }

  /** The joined string starts with the first part and ends with the last. */
  lemma {:induction false} JoinEnds(parts: seq<string>, sep: string)
    requires |parts| >= 1
    ensures parts[0] <= Join(parts, sep)
    ensures |parts[|parts| - 1]| <= |Join(parts, sep)|
    ensures Join(parts, sep)[|Join(parts, sep)| - |parts[|parts| - 1]|..] == parts[|parts| - 1]
    decreases |parts|
  {
    if |parts| > 1 {
      JoinEnds(parts[1..], sep);
      var j := Join(parts[1..], sep);
      var last := parts[|parts| - 1];
      assert parts[1..][|parts[1..]| - 1] == last;
      var whole := parts[0] + sep + j;
      assert whole[|whole| - |last|..] == j[|j| - |last|..];
    }
  }

  lemma {:induction false} PartitionEntry(k: string, v: string)
    requires '=' !in k
    ensures Partition(Entry(k, v), '=') == (k, v)
    decreases |k|
  {
    var e := Entry(k, v);
    if |k| == 0 {
      assert e[1..] == v;
    } else {
      assert e[1..] == Entry(k[1..], v);
      PartitionEntry(k[1..], v);
      assert [k[0]] + k[1..] == k;
    }
  }

  /** The map on the keys `ks` is the map on the later keys, updated with the first. */
  lemma KeysMapCons(m: map<string, string>, ks: seq<string>)
    requires ks != [] && forall k :: k in ks ==> k in m
    ensures (map k | k in ks :: m[k]) == (map k | k in ks[1..] :: m[k])[ks[0] := m[ks[0]]]
  {
    forall k
      ensures k in ks <==> k == ks[0] || k in ks[1..]
    {
      assert ks == [ks[0]] + ks[1..];
    }
  }

  lemma {:induction false} ParseEntriesOfEntries(m: map<string, string>, ks: seq<string>)
    requires forall k :: k in ks ==> k in m && '=' !in k
    ensures ToMap(ParseEntries(Entries(m, ks))) == map k | k in ks :: m[k]
    decreases |ks|
  {
    if ks != [] {
      var es := Entries(m, ks);
      var tail := Entries(m, ks[1..]);
      assert es == [Entry(ks[0], m[ks[0]])] + tail;
      assert es[1..] == tail;
      PartitionEntry(ks[0], m[ks[0]]);
      assert ParseEntries(es) == [(ks[0], m[ks[0]])] + ParseEntries(tail);
      ParseEntriesOfEntries(m, ks[1..]);
      KeysMapCons(m, ks);
    }
  }

  lemma EntriesAreSeparatorFree(m: map<string, string>)
    requires SeparatorFree(m)
    ensures forall i :: 0 <= i < |CanonicalEntries(m)| ==> '&' !in CanonicalEntries(m)[i]
  {
  }

  /**
   * A verifier that reads the signing string back recovers exactly the
   * parameters that were signed, provided there is at least one and the
   * rendering is unambiguous.
   */
  lemma ParseCanonicalString(m: map<string, string>)
    requires |m| >= 1 && Unambiguous(m)
    ensures ParseCanonical(CanonicalString(m)) == m
  {
    var ks := SortedKeys(m.Keys);
    var es := CanonicalEntries(m);
    assert CanonicalString(m) == Join(es, ['&']);
    EntriesAreSeparatorFree(m);
    SplitJoin(es, '&');
    ParseEntriesOfEntries(m, ks);
    SortedKeysMap(m);
  }

  /** Restricting a map to its sorted keys gives the map back. */
  lemma SortedKeysMap(m: map<string, string>)
    ensures (map k | k in SortedKeys(m.Keys) :: m[k]) == m
  {
  }

  /** Two unambiguous, non-empty parameter maps with the same signing string are equal. */
  lemma CanonicalStringInjective(m1: map<string, string>, m2: map<string, string>)
    requires |m1| >= 1 && Unambiguous(m1)
    requires |m2| >= 1 && Unambiguous(m2)
    requires CanonicalString(m1) == CanonicalString(m2)
    ensures m1 == m2
  {
    ParseCanonicalString(m1);
    ParseCanonicalString(m2);
  }

  /**
   * The shape of the signing string: `n` entries give exactly `n - 1`
   * separators, none at either end, and splitting on `&` gives the entries
   * back in ascending key order.
   */
  lemma CanonicalStringShape(m: map<string, string>)
    requires |m| >= 1 && SeparatorFree(m)
    ensures var s := CanonicalString(m);
      && multiset(s)['&'] == |m| - 1
      && |s| >= 1 && s[0] != '&' && s[|s| - 1] != '&'
      && Split(s, '&') == CanonicalEntries(m)
  {
    var es := CanonicalEntries(m);
    var s := CanonicalString(m);
    EntriesAreSeparatorFree(m);
    JoinSeparatorCount(es, '&');
    SplitJoin(es, '&');
    JoinEnds(es, "&");
    var first, last := es[0], es[|es| - 1];
    assert |first| >= 1 && |last| >= 1;
    assert s[0] == first[0];
    assert s[|s| - 1] == s[|s| - |last|..][|last| - 1] == last[|last| - 1];
  }

  /**
   * Without escaping, a value holding `&` can pass for two parameters: both
   * maps below are signed over the same string.
   */
  lemma AmbiguousWithoutEscaping()
    ensures CanonicalString(map["a" := "1&b=2"]) == CanonicalString(map["a" := "1", "b" := "2"])
    ensures map["a" := "1&b=2"] != map["a" := "1", "b" := "2"]
  {
    var one := map["a" := "1&b=2"];
    var two := map["a" := "1", "b" := "2"];
    assert SortedKeys(one.Keys) == ["a"];
    assert LexOrder.Less("a", "b");
    assert MinKey({"a", "b"}) == "a";
    assert {"a", "b"} - {"a"} == {"b"};
    assert SortedKeys({"b"}) == ["b"];
    assert two.Keys == {"a", "b"};
    assert SortedKeys(two.Keys) == ["a", "b"];
    assert "b" !in one;
  }
}
