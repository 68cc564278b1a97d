/** The value-level meaning of the linked-list operations: what each one does to the
    sequence of values held from head to tail, and the facts about those sequences
    that the list's methods rely on. */
module LinkedListSpec {
  import opened Text

  /** Where the first `v` sits in `s`, or `|s|` when there is none. */
  function FirstIndex(s: seq<int>, v: int): (i: nat)
    ensures i <= |s|
    ensures forall j :: 0 <= j < i ==> s[j] != v
    ensures i < |s| ==> s[i] == v
    ensures i == |s| <==> v !in s
  {
    if s == [] then 0
    else if s[0] == v then 0
    else 1 + FirstIndex(s[1..], v)
  }

  /** The first `v` is at `i` when `s[i]` is `v` and no element before it is. */
  lemma FirstIndexAt(s: seq<int>, v: int, i: nat)
    requires i < |s| && s[i] == v
    requires forall j :: 0 <= j < i ==> s[j] != v
    ensures FirstIndex(s, v) == i
  {
    assert v in s;
  }

  /** `s` without its element at `i` (unchanged when `i` is past the end). */
  function DropAt<T>(s: seq<T>, i: nat): (r: seq<T>)
    ensures i < |s| ==> |r| == |s| - 1
    ensures i >= |s| ==> r == s
  {
    if i < |s| then s[..i] + s[i + 1..] else s
  }

  /** `s` with `x` placed so that it ends up at index `i`. */
  function InsertAt<T>(s: seq<T>, i: nat, x: T): (r: seq<T>)
    requires i <= |s|
    ensures |r| == |s| + 1 && r[i] == x
  {
    s[..i] + [x] + s[i..]
  }

  /** No element occurs twice. */
  ghost predicate Distinct<T>(s: seq<T>) {
    forall i, j :: 0 <= i < j < |s| ==> s[i] != s[j]
  }

  lemma DistinctDropAt<T>(s: seq<T>, i: nat)
    requires Distinct(s)
    ensures Distinct(DropAt(s, i))
  {
    if i < |s| {
      var r := DropAt(s, i);
      forall a, b | 0 <= a < b < |r|
        ensures r[a] != r[b]
      {
        var a', b' := if a < i then a else a + 1, if b < i then b else b + 1;
        assert r[a] == s[a'] && r[b] == s[b'] && a' < b';
      }
    }
  }

  lemma DistinctInsertAt<T>(s: seq<T>, i: nat, x: T)
    requires Distinct(s) && i <= |s| && x !in s
    ensures Distinct(InsertAt(s, i, x))
  {
    var r := InsertAt(s, i, x);
    forall a, b | 0 <= a < b < |r|
      ensures r[a] != r[b]
    {
      if a != i && b != i {
        var a', b' := if a < i then a else a - 1, if b < i then b else b - 1;
        assert r[a] == s[a'] && r[b] == s[b'] && a' < b';
      } else if a == i {
        assert r[b] == s[b - 1];
      } else {
        assert r[a] == s[a];
      }
    }
  }

  /** The values after `Remove(v)`: the first `v` is gone. */
  function RemoveFirst(s: seq<int>, v: int): seq<int> {
    if s == [] then []
    else if s[0] == v then s[1..]
    else [s[0]] + RemoveFirst(s[1..], v)
  }

  /** The values after `InsertAfter(x, y)`: `y` right after the first `x`. */
  function InsertAfterFirst(s: seq<int>, x: int, y: int): seq<int> {
    if s == [] then []
    else if s[0] == x then [s[0], y] + s[1..]
    else [s[0]] + InsertAfterFirst(s[1..], x, y)
  }

  /** The values after `Replace(a, b)`: every `a` becomes `b`. */
  function ReplaceAll(s: seq<int>, a: int, b: int): seq<int> {
    if s == [] then []
    else [if s[0] == a then b else s[0]] + ReplaceAll(s[1..], a, b)
  }

  /** The values in the opposite order. */
  function Reversed(s: seq<int>): seq<int> {
    if s == [] then [] else Reversed(s[1..]) + [s[0]]
  }

  /** The decimal text of every value, in order. */
  function IntStrings(s: seq<int>): (r: seq<string>)
    ensures |r| == |s|
    ensures forall i :: 0 <= i < |s| ==> r[i] == IntToString(s[i])
  {
    seq(|s|, i requires 0 <= i < |s| => IntToString(s[i]))
  }

  /** `prefix` followed by the values joined by ", " and a closing brace. */
  function Format(prefix: string, s: seq<int>): string {
    prefix + Join(IntStrings(s), ", ") + "}"
  }

  // ---------------------------------------------------------------------------
  // Remove

  /** Removing the first `v` is dropping the element at the index where `v` first occurs. */
  lemma {:induction false} RemoveFirstIsDropAt(s: seq<int>, v: int)
    ensures RemoveFirst(s, v) == DropAt(s, FirstIndex(s, v))
  {
    if s != [] && s[0] != v {
      RemoveFirstIsDropAt(s[1..], v);
      var i := FirstIndex(s[1..], v);
      if i < |s[1..]| {
        assert [s[0]] + (s[1..][..i] + s[1..][i + 1..]) == s[..i + 1] + s[i + 2..];
      }
    }
  }

  /** Remove takes out one copy of `v` when there is one, and nothing else. */
  lemma {:induction false} RemoveFirstMultiset(s: seq<int>, v: int)
    ensures multiset(RemoveFirst(s, v)) == multiset(s) - multiset{v}
    ensures |RemoveFirst(s, v)| == if v in s then |s| - 1 else |s|
  {
    if s != [] {
      assert s == [s[0]] + s[1..];
      if s[0] != v {
        RemoveFirstMultiset(s[1..], v);
      }
    }
  }

  /** Removing a value that is absent changes nothing. */
  lemma {:induction false} RemoveFirstAbsent(s: seq<int>, v: int)
    requires v !in s
    ensures RemoveFirst(s, v) == s
  {
    if s != [] {
      RemoveFirstAbsent(s[1..], v);
      assert s == [s[0]] + s[1..];
    }
  }

  // ---------------------------------------------------------------------------
  // InsertAfter

  /** Inserting after the first `x` places `y` at the index following it. */
  lemma {:induction false} InsertAfterFirstIsInsertAt(s: seq<int>, x: int, y: int)
    ensures var i := FirstIndex(s, x);
            InsertAfterFirst(s, x, y) == if i < |s| then InsertAt(s, i + 1, y) else s
  {
    if s != [] {
      if s[0] == x {
        assert InsertAt(s, 1, y) == [s[0], y] + s[1..];
      } else {
        InsertAfterFirstIsInsertAt(s[1..], x, y);
        var i := FirstIndex(s[1..], x);
        if i < |s[1..]| {
          assert [s[0]] + InsertAt(s[1..], i + 1, y) == InsertAt(s, i + 2, y);
        } else {
          assert [s[0]] + s[1..] == s;
        }
      }
    }
  }

  /** When `x` occurs, the result holds every old value plus `y`. */
  lemma {:induction false} InsertAfterFirstMultiset(s: seq<int>, x: int, y: int)
    ensures multiset(InsertAfterFirst(s, x, y)) == if x in s then multiset(s) + multiset{y} else multiset(s)
  {
    if s != [] {
      assert s == [s[0]] + s[1..];
      if s[0] != x {
        InsertAfterFirstMultiset(s[1..], x, y);
      }
    }
  }

  // ---------------------------------------------------------------------------
  // Replace

  /** Replace keeps the length and changes exactly the positions that held `a`. */
  lemma {:induction false} ReplaceAllAt(s: seq<int>, a: int, b: int)
    ensures |ReplaceAll(s, a, b)| == |s|
    ensures forall i :: 0 <= i < |s| ==> ReplaceAll(s, a, b)[i] == if s[i] == a then b else s[i]
  {
    if s != [] {
      ReplaceAllAt(s[1..], a, b);
    }
  }

  /** `Replace(x, x)` leaves the values as they were. */
  lemma ReplaceAllSame(s: seq<int>, x: int)
    ensures ReplaceAll(s, x, x) == s
  {
    ReplaceAllAt(s, x, x);
  }

  /** After replacing `a` by a different `b`, no `a` is left. */
  lemma ReplaceAllRemovesOld(s: seq<int>, a: int, b: int)
    requires a != b
    ensures a !in ReplaceAll(s, a, b)
  {
    ReplaceAllAt(s, a, b);
  }

  // ---------------------------------------------------------------------------
  // Reverse

  lemma {:induction false} ReversedAt(s: seq<int>, k: nat)
    requires k < |s|
    ensures |Reversed(s)| == |s| && Reversed(s)[k] == s[|s| - 1 - k]
  {
    ReversedLength(s);
    if k < |s| - 1 {
      ReversedAt(s[1..], k);
    }
  }

  lemma {:induction false} ReversedLength(s: seq<int>)
    ensures |Reversed(s)| == |s|
  {
    if s != [] {
      ReversedLength(s[1..]);
    }
  }

  /** Reversing the reversed values gives back the values. */
  lemma ReversedInvolution(s: seq<int>)
    ensures Reversed(Reversed(s)) == s
  {
    ReversedLength(s);
    ReversedLength(Reversed(s));
    forall k | 0 <= k < |s|
      ensures Reversed(Reversed(s))[k] == s[k]
    {
      ReversedAt(Reversed(s), k);
      ReversedAt(s, |s| - 1 - k);
    }
  }

  /** Appending a value puts it first in the reversed order. */
  lemma {:induction false} ReversedSnoc(s: seq<int>, v: int)
    ensures Reversed(s + [v]) == [v] + Reversed(s)
  {
    if s != [] {
      assert (s + [v])[1..] == s[1..] + [v];
      ReversedSnoc(s[1..], v);
    }
  }

  // ---------------------------------------------------------------------------
  // Formatting

  /** With two or more values, the joined text ends in the last comma, a space and the last value. */
  lemma JoinIntStringsLast(s: seq<int>)
    requires |s| >= 2
    ensures Join(IntStrings(s), ", ") ==
            Join(IntStrings(s[..|s| - 1]), ", ") + [','] + (" " + IntToString(s[|s| - 1]))
  {
    var n := |s|;
    var ps := IntStrings(s);
    IntStringsPrefix(s, n - 1);
    var a := Join(ps[..n - 1], ", ");
    assert Join(ps, ", ") == a + ", " + ps[n - 1];
    CommaSpaceRegrouped(a, ps[n - 1]);
  }

  lemma IntStringsPrefix(s: seq<int>, k: nat)
    requires k <= |s|
    ensures IntStrings(s)[..k] == IntStrings(s[..k])
  {
  }

  lemma CommaSpaceRegrouped(a: string, b: string)
    ensures a + ", " + b == a + [','] + (" " + b)
  {
  }

  /** Joined integer texts contain a comma exactly when there are at least two of them, and are
      empty exactly when there are none. */
  lemma {:induction false} JoinIntStringsShape(s: seq<int>)
    ensures (',' in Join(IntStrings(s), ", ")) <==> |s| >= 2
    ensures (Join(IntStrings(s), ", ") == "") <==> |s| == 0
  {
    if |s| == 1 {
      assert Join(IntStrings(s), ", ") == IntToString(s[0]);
      NoCommaAfterIntText(" ", s[0]);
      assert IntToString(s[0]) == (" " + IntToString(s[0]))[1..];
    } else if |s| >= 2 {
      JoinIntStringsLast(s);
      var j := Join(IntStrings(s[..|s| - 1]), ", ");
      assert (j + [','] + (" " + IntToString(s[|s| - 1])))[|j|] == ',';
    }
  }

  /** Equal joined texts of two or more values agree on the last value and on the text before it. */
  lemma JoinIntStringsSplitLast(s: seq<int>, t: seq<int>)
    requires |s| >= 2 && |t| >= 2
    requires Join(IntStrings(s), ", ") == Join(IntStrings(t), ", ")
    ensures s[|s| - 1] == t[|t| - 1]
    ensures Join(IntStrings(s[..|s| - 1]), ", ") == Join(IntStrings(t[..|t| - 1]), ", ")
  {
    var n, m := |s|, |t|;
    JoinIntStringsLast(s);
    JoinIntStringsLast(t);
    NoCommaAfterIntText(" ", s[n - 1]);
    NoCommaAfterIntText(" ", t[m - 1]);
    var b, b2 := " " + IntToString(s[n - 1]), " " + IntToString(t[m - 1]);
    LastSeparator(Join(IntStrings(s[..n - 1]), ", "), b, Join(IntStrings(t[..m - 1]), ", "), b2, ',');
    assert IntToString(s[n - 1]) == b[1..] && IntToString(t[m - 1]) == b2[1..];
    IntToStringInjective(s[n - 1], t[m - 1]);
  }

  lemma JoinIntStringsSingle(s: seq<int>, t: seq<int>)
    requires |s| == 1 && |t| == 1
    requires Join(IntStrings(s), ", ") == Join(IntStrings(t), ", ")
    ensures s == t
  {
    assert Join(IntStrings(s), ", ") == IntToString(s[0]);
    assert Join(IntStrings(t), ", ") == IntToString(t[0]);
    IntToStringInjective(s[0], t[0]);
  }

  /** Different value sequences have different texts: the joined form can be read back. */
  lemma {:induction false} JoinIntStringsInjective(s: seq<int>, t: seq<int>)
    requires Join(IntStrings(s), ", ") == Join(IntStrings(t), ", ")
    ensures s == t
    decreases |s|, 1
  {
    JoinIntStringsShape(s);
    JoinIntStringsShape(t);
    if |s| == 1 {
      JoinIntStringsSingle(s, t);
    } else if |s| >= 2 {
      JoinIntStringsMany(s, t);
    }
  }

  lemma {:induction false} JoinIntStringsMany(s: seq<int>, t: seq<int>)
    requires |s| >= 2 && |t| >= 2
    requires Join(IntStrings(s), ", ") == Join(IntStrings(t), ", ")
    ensures s == t
    decreases |s|, 0
  {
    JoinIntStringsSplitLast(s, t);
    JoinIntStringsInjective(s[..|s| - 1], t[..|t| - 1]);
    SameInitSameLast(s, t);
  }

  /** Sequences that agree on all but the last element and on the last element are equal. */
  lemma SameInitSameLast(s: seq<int>, t: seq<int>)
    requires |s| >= 1 && |t| >= 1
    requires s[..|s| - 1] == t[..|t| - 1] && s[|s| - 1] == t[|t| - 1]
    ensures s == t
  {
    assert s == s[..|s| - 1] + [s[|s| - 1]];
    assert t == t[..|t| - 1] + [t[|t| - 1]];
  }

  /** The formatted text determines the values: equal texts mean equal lists. */
  lemma FormatInjective(prefix: string, s: seq<int>, t: seq<int>)
    ensures Format(prefix, s) == Format(prefix, t) <==> s == t
  {
    if Format(prefix, s) == Format(prefix, t) {
      var js, jt := Join(IntStrings(s), ", "), Join(IntStrings(t), ", ");
      assert |js| == |jt|;
      assert js == Format(prefix, s)[|prefix|..|prefix| + |js|];
      assert jt == Format(prefix, t)[|prefix|..|prefix| + |jt|];
      JoinIntStringsInjective(s, t);
    }
  }

  /** The text of the first value alone. */
  lemma JoinIntStringsFirst(s: seq<int>)
    requires 0 < |s|
    ensures Join(IntStrings(s[..1]), ", ") == IntToString(s[0])
  {
    assert s[..1] == [s[0]];
  }

  /** One more value appends ", " and its text. */
  lemma JoinIntStringsNext(s: seq<int>, i: nat)
    requires 0 < i < |s|
    ensures Join(IntStrings(s[..i + 1]), ", ") == Join(IntStrings(s[..i]), ", ") + ", " + IntToString(s[i])
  {
    assert s[..i + 1] == s[..i] + [s[i]];
    assert IntStrings(s[..i] + [s[i]]) == IntStrings(s[..i]) + [IntToString(s[i])];
    JoinSnoc(IntStrings(s[..i]), IntToString(s[i]), ", ");
  }

  /** Joining one more value: its text, after ", " unless it is the first. */
  lemma JoinIntStringsStep(s: seq<int>, k: nat)
    requires k < |s|
    ensures Join(IntStrings(s[..k + 1]), ", ") ==
            Join(IntStrings(s[..k]), ", ") + (if k > 0 then ", " else "") + IntToString(s[k])
  {
    if k == 0 {
      JoinIntStringsFirst(s);
      assert IntStrings(s[..0]) == [];
    } else {
      JoinIntStringsNext(s, k);
    }
  }
}
