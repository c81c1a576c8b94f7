/** The order in which `for (let v in obj)` visits the keys of a plain
    JavaScript object: keys that are array indices (canonical decimal
    strings of the numbers 0 .. 2^32 - 2) first, in ascending numeric
    order, then every other key in the order it was first added. The
    residual table's inner dictionaries are such objects, so this order
    decides which neighbour `bfs` pushes first. */
module KeyOrder {
  import opened Graph

  predicate IsDigit(c: char) {
    '0' <= c <= '9'
  }

  /** The decimal value of a string of digits. */
  function Value(k: string): nat
    decreases |k|
  {
    if |k| == 0 then 0
    else
      var c := k[|k| - 1];
      Value(k[..|k| - 1]) * 10 + (if IsDigit(c) then c as int - '0' as int else 0)
  }

  /** An array index: digits only, no leading zero, below 2^32 - 1. */
  predicate IsIndex(k: string) {
    && |k| > 0
    && (forall i :: 0 <= i < |k| ==> IsDigit(k[i]))
    && (k[0] == '0' ==> |k| == 1)
    && Value(k) < 0xFFFF_FFFF
  }

  /** `n.toString()` reads back as n and is canonical: it starts with '0'
      only when it is "0", so a small enough number prints as an index. */
  lemma {:induction false} DecimalValue(n: nat)
    ensures Value(NatToString(n)) == n
    ensures NatToString(n)[0] == '0' ==> NatToString(n) == "0"
    ensures n < 0xFFFF_FFFF ==> IsIndex(NatToString(n))
    decreases n
  {
    var s := NatToString(n);
    if n < 10 {
      assert s[..0] == [];
    } else {
      var t := NatToString(n / 10);
      DecimalValue(n / 10);
      assert s[..|s| - 1] == t;
      assert s[0] == t[0];
    }
  }

  predicate Ascending<K>(rank: K -> nat, s: seq<K>) {
    forall i, j :: 0 <= i < j < |s| ==> rank(s[i]) <= rank(s[j])
  }

  /** The keys of ks that pass the test, in their order in ks. */
  function Keep<K>(test: K -> bool, ks: seq<K>): (r: seq<K>)
    ensures forall k :: k in r ==> test(k)
  {
    if |ks| == 0 then []
    else if test(ks[0]) then [ks[0]] + Keep(test, ks[1..]) else Keep(test, ks[1..])
  }

  lemma TailNoDup<K>(s: seq<K>)
    requires NoDup(s) && |s| > 0
    ensures NoDup(s[1..]) && s[0] !in s[1..]
  {
    forall i, j | 0 <= i < j < |s[1..]| ensures s[1..][i] != s[1..][j] {
      assert s[1..][i] == s[i + 1] && s[1..][j] == s[j + 1];
    }
    forall i | 0 <= i < |s[1..]| ensures s[1..][i] != s[0] {
      assert s[1..][i] == s[i + 1];
    }
  }

  lemma ConsNoDup<K>(x: K, s: seq<K>)
    requires NoDup(s) && x !in s
    ensures NoDup([x] + s)
  {
    var r := [x] + s;
    forall i, j | 0 <= i < j < |r| ensures r[i] != r[j] {
      assert r[j] == s[j - 1];
      if i > 0 {
        assert r[i] == s[i - 1];
      }
    }
  }

  /** Keep leaves out exactly the keys that fail the test, and repeats nothing new. */
  lemma {:induction false} KeepFacts<K>(test: K -> bool, ks: seq<K>)
    ensures forall k :: k in Keep(test, ks) <==> k in ks && test(k)
    ensures NoDup(ks) ==> NoDup(Keep(test, ks))
  {
    if |ks| > 0 {
      KeepFacts(test, ks[1..]);
      assert ks == [ks[0]] + ks[1..];
      if NoDup(ks) {
        TailNoDup(ks);
        if test(ks[0]) {
          ConsNoDup(ks[0], Keep(test, ks[1..]));
        }
      }
    }
  }

  /** x placed into a list before the first key it does not outrank. */
  function Insert<K>(rank: K -> nat, x: K, s: seq<K>): seq<K> {
    if |s| == 0 then [x]
    else if rank(x) <= rank(s[0]) then [x] + s
    else [s[0]] + Insert(rank, x, s[1..])
  }

  /** Insertion adds x and nothing else. */
  lemma {:induction false} InsertMembers<K>(rank: K -> nat, x: K, s: seq<K>)
    ensures forall k :: k in Insert(rank, x, s) <==> k == x || k in s
    ensures NoDup(s) && x !in s ==> NoDup(Insert(rank, x, s))
  {
    if |s| > 0 {
      assert s == [s[0]] + s[1..];
      if rank(x) <= rank(s[0]) {
        if NoDup(s) && x !in s {
          ConsNoDup(x, s);
        }
      } else {
        InsertMembers(rank, x, s[1..]);
        if NoDup(s) && x !in s {
          TailNoDup(s);
          ConsNoDup(s[0], Insert(rank, x, s[1..]));
        }
      }
    }
  }

  /** A bound below x and below every key of s is below every key after insertion. */
  lemma {:induction false} InsertLower<K>(rank: K -> nat, x: K, s: seq<K>, b: int)
    requires rank(x) >= b && forall i :: 0 <= i < |s| ==> rank(s[i]) >= b
    ensures forall i :: 0 <= i < |Insert(rank, x, s)| ==> rank(Insert(rank, x, s)[i]) >= b
  {
    if |s| > 0 && rank(x) > rank(s[0]) {
      assert forall i :: 0 <= i < |s[1..]| ==> s[1..][i] == s[i + 1];
      InsertLower(rank, x, s[1..], b);
    }
  }

  /** Insertion keeps an ascending list ascending. */
  lemma {:induction false} InsertAscending<K>(rank: K -> nat, x: K, s: seq<K>)
    requires Ascending(rank, s)
    ensures Ascending(rank, Insert(rank, x, s))
  {
    if |s| > 0 && rank(x) > rank(s[0]) {
      var t := Insert(rank, x, s[1..]);
      assert Ascending(rank, s[1..]) by {
        forall i, j | 0 <= i < j < |s[1..]| ensures rank(s[1..][i]) <= rank(s[1..][j]) {
          assert s[1..][i] == s[i + 1] && s[1..][j] == s[j + 1];
        }
      }
      InsertAscending(rank, x, s[1..]);
      assert forall i :: 0 <= i < |s[1..]| ==> s[1..][i] == s[i + 1];
      InsertLower(rank, x, s[1..], rank(s[0]));
      var r := [s[0]] + t;
      forall i, j | 0 <= i < j < |r| ensures rank(r[i]) <= rank(r[j]) {
        assert r[j] == t[j - 1];
        if i > 0 {
          assert r[i] == t[i - 1];
        }
      }
    }
  }

  /** The keys of s in ascending order of rank. */
  function Sort<K>(rank: K -> nat, s: seq<K>): seq<K> {
    if |s| == 0 then [] else Insert(rank, s[0], Sort(rank, s[1..]))
  }

  /** Sorting rearranges the keys into ascending order. */
  lemma {:induction false} SortFacts<K>(rank: K -> nat, s: seq<K>)
    ensures forall k :: k in Sort(rank, s) <==> k in s
    ensures NoDup(s) ==> NoDup(Sort(rank, s))
    ensures Ascending(rank, Sort(rank, s))
  {
    if |s| > 0 {
      SortFacts(rank, s[1..]);
      InsertMembers(rank, s[0], Sort(rank, s[1..]));
      InsertAscending(rank, s[0], Sort(rank, s[1..]));
      assert s == [s[0]] + s[1..];
      if NoDup(s) {
        TailNoDup(s);
      }
    }
  }

  /** The enumeration order of an object whose keys were added in the order ks. */
  function EnumOrder(ks: seq<string>): seq<string> {
    Sort(Value, Keep(IsIndex, ks)) + Keep(k => !IsIndex(k), ks)
  }

  /** The enumeration lists the keys of the insertion order, each as often:
      the index keys first and ascending, the others after them in
      insertion order. */
  lemma EnumOrderShape(ks: seq<string>)
    ensures forall x :: x in EnumOrder(ks) <==> x in ks
    ensures NoDup(ks) ==> NoDup(EnumOrder(ks))
    ensures var a := Sort(Value, Keep(IsIndex, ks));
      && EnumOrder(ks) == a + Keep(k => !IsIndex(k), ks)
      && Ascending(Value, a) && (forall k :: k in a <==> k in ks && IsIndex(k))
  {
    var a, b := Sort(Value, Keep(IsIndex, ks)), Keep(k => !IsIndex(k), ks);
    KeepFacts(IsIndex, ks);
    KeepFacts(k => !IsIndex(k), ks);
    SortFacts(Value, Keep(IsIndex, ks));
    if NoDup(ks) {
      var r := a + b;
      forall i, j | 0 <= i < j < |r| ensures r[i] != r[j] {
        if j < |a| {
          assert r[i] == a[i] && r[j] == a[j];
        } else if i >= |a| {
          assert r[i] == b[i - |a|] && r[j] == b[j - |a|];
        } else {
          assert r[i] == a[i] && r[j] == b[j - |a|];
          assert IsIndex(r[i]) && !IsIndex(r[j]);
        }
      }
    }
  }

  /** Keys added as "b", "10", "2" are enumerated as "2", "10", "b". */
  lemma EnumOrderExample()
    ensures EnumOrder(["b", "10", "2"]) == ["2", "10", "b"]
  {
    assert Value("10") == 10 && Value("2") == 2;
    assert IsIndex("10") && IsIndex("2") && !IsIndex("b");
    var ks := ["b", "10", "2"];
    assert ks[1..] == ["10", "2"] && ks[1..][1..] == ["2"] && ks[1..][1..][1..] == [];
    assert Keep(IsIndex, ks) == ["10", "2"];
    assert Keep(k => !IsIndex(k), ks) == ["b"];
    assert Sort(Value, ["2"]) == ["2"];
    assert Sort(Value, ["10", "2"]) == Insert(Value, "10", ["2"]) == ["2", "10"];
  }
}
