/**
 * Reordering a user's domain list: the user types the current numbers in
 * the new order ("3 1 2" or "3,1,2"); the answer is accepted only when,
 * sorted, it is exactly 1..n, and the list is then rearranged by it.
 */
module Reorder {
  import opened Wrappers
  import opened Strings

  // ---------------------------------------------------------------------
  // sorted() and range(1, n + 1)
  // ---------------------------------------------------------------------

  /** `list(range(1, n + 1))`. */
  function OneTo(n: nat): (r: seq<int>)
    ensures |r| == n
    ensures forall k :: 0 <= k < n ==> r[k] == k + 1
  {
    seq(n, k requires 0 <= k < n => k + 1)
  }

  predicate Ascending(s: seq<int>) {
    forall i, j :: 0 <= i < j < |s| ==> s[i] <= s[j]
  }

  /** A value no larger than the head of an ascending sequence extends it. */
  lemma ConsAscending(y: int, t: seq<int>)
    requires Ascending(t) && (t == [] || y <= t[0])
    ensures Ascending([y] + t)
  {
    var c := [y] + t;
    forall i, j | 0 <= i < j < |c| ensures c[i] <= c[j] {
      if i > 0 {
        assert c[i] == t[i - 1] && c[j] == t[j - 1];
      } else {
        assert c[j] == t[j - 1] && t[0] <= t[j - 1];
      }
    }
  }

  function Insert(x: int, s: seq<int>): (r: seq<int>)
    requires Ascending(s)
    ensures Ascending(r)
    ensures multiset(r) == multiset(s) + multiset{x}
    ensures r[0] == if s == [] || x <= s[0] then x else s[0]
  {
    if s == [] || x <= s[0] then
      ConsAscending(x, s);
      [x] + s
    else
      var t := Insert(x, s[1..]);
      assert s == [s[0]] + s[1..];
      ConsAscending(s[0], t);
      [s[0]] + t
  }

  /** Python's `sorted` on a list of integers. */
  function Sort(s: seq<int>): (r: seq<int>)
    ensures Ascending(r)
    ensures multiset(r) == multiset(s)
  {
    if s == [] then []
    else
      assert s == [s[0]] + s[1..];
      Insert(s[0], Sort(s[1..]))
  }

  lemma MultisetCancel<T>(m1: multiset<T>, m2: multiset<T>, x: T)
    requires m1 + multiset{x} == m2 + multiset{x}
    ensures m1 == m2
  {
    assert m1 == (m1 + multiset{x}) - multiset{x};
    assert m2 == (m2 + multiset{x}) - multiset{x};
  }

  /** The head of an ascending sequence is no larger than any value it holds. */
  lemma HeadIsLeast(a: seq<int>, x: int)
    requires Ascending(a) && x in multiset(a)
    ensures a != [] && a[0] <= x
  {
    var i :| 0 <= i < |a| && a[i] == x;
    assert a[0] <= a[i];
  }

  lemma HeadTail<T>(a: seq<T>)
    requires a != []
    ensures multiset(a) == multiset(a[1..]) + multiset{a[0]}
  {
    assert a == [a[0]] + a[1..];
  }

  /** Ascending sequences with the same values start with the same value. */
  lemma SameHead(a: seq<int>, b: seq<int>)
    requires Ascending(a) && Ascending(b) && multiset(a) == multiset(b) && a != []
    ensures b != [] && a[0] == b[0]
  {
    assert a[0] in multiset(a);
    HeadIsLeast(b, a[0]);
    HeadIsLeast(a, b[0]);
  }

  /** Equal multisets that share their head share the rest. */
  lemma SameTail(a: seq<int>, b: seq<int>)
    requires a != [] && b != [] && a[0] == b[0] && multiset(a) == multiset(b)
    ensures multiset(a[1..]) == multiset(b[1..])
  {
    HeadTail(a);
    HeadTail(b);
    MultisetCancel(multiset(a[1..]), multiset(b[1..]), a[0]);
  }

  lemma AscendingTail(a: seq<int>)
    requires Ascending(a) && a != []
    ensures Ascending(a[1..])
  {
  }

  /** Two ascending sequences holding the same values are equal. */
  lemma {:induction false} AscendingUnique(a: seq<int>, b: seq<int>)
    requires Ascending(a) && Ascending(b)
    requires multiset(a) == multiset(b)
    ensures a == b
  {
    if a == [] {
      assert |b| == |multiset(b)| == 0;
    } else {
      SameHead(a, b);
      SameTail(a, b);
      AscendingTail(a);
      AscendingTail(b);
      AscendingUnique(a[1..], b[1..]);
      assert a == [a[0]] + a[1..] && b == [b[0]] + b[1..];
    }
  }

  /** The source's test `sorted(order) == list(range(1, n + 1))` holds exactly when `order` is a permutation of 1..n. */
  lemma SortCheck(order: seq<int>, n: nat)
    ensures Sort(order) == OneTo(n) <==> multiset(order) == multiset(OneTo(n))
  {
    if multiset(order) == multiset(OneTo(n)) {
      AscendingUnique(Sort(order), OneTo(n));
    }
  }

  /** Every number of the order names an existing position. */
  predicate InRange(order: seq<int>, n: nat) {
    forall k :: 0 <= k < |order| ==> 1 <= order[k] <= n
  }

  lemma PermutationInRange(order: seq<int>, n: nat)
    requires multiset(order) == multiset(OneTo(n))
    ensures InRange(order, n)
  {
    forall k | 0 <= k < |order| ensures 1 <= order[k] <= n {
      assert order[k] in multiset(OneTo(n));
    }
  }

  // ---------------------------------------------------------------------
  // Reading the answer
  // ---------------------------------------------------------------------

  /** `[int(x) for x in words]`: every word must read as an integer. */
  function ParseAll(ws: seq<string>): (r: Option<seq<int>>)
    ensures r.Some? <==> forall k :: 0 <= k < |ws| ==> ParseInt(ws[k]).Some?
    ensures r.Some? ==> |r.value| == |ws| && forall k :: 0 <= k < |ws| ==> r.value[k] == ParseInt(ws[k]).value
  {
    AllOf(ws, ParseInt)
  }

  /** Every element converted, or `None` as soon as one conversion fails. */
  function AllOf<T, U>(xs: seq<T>, f: T -> Option<U>): (r: Option<seq<U>>)
    ensures r.Some? <==> forall k :: 0 <= k < |xs| ==> f(xs[k]).Some?
    ensures r.Some? ==> |r.value| == |xs| && forall k :: 0 <= k < |xs| ==> r.value[k] == f(xs[k]).value
  {
    if xs == [] then Some([])
    else
      match f(xs[0])
      case None => None
      case Some(v) =>
        match AllOf(xs[1..], f)
        case None =>
          assert forall k :: 1 <= k < |xs| ==> xs[k] == xs[1..][k - 1];
          None
        case Some(vs) => Some([v] + vs)
  }


  /** The numbers typed: commas count as spaces, then whitespace-separated integers. */
  function ParseOrder(text: string): Option<seq<int>> {
    ParseAll(Words(ReplaceChar(text, ',', " ")))
  }

  /** `[names[i - 1] for i in order]`. */
  function Pick(names: seq<string>, order: seq<int>): (r: seq<string>)
    requires InRange(order, |names|)
    ensures |r| == |order|
  {
    seq(|order|, k requires 0 <= k < |order| => names[order[k] - 1])
  }

  /** The new list of domains, or nothing when the answer is refused ("wrong format", nothing saved). */
  function Reorder(names: seq<string>, text: string): Option<seq<string>> {
    match ParseOrder(text)
    case None => None
    case Some(order) =>
      if Sort(order) != OneTo(|names|) then None
      else
        SortCheck(order, |names|);
        PermutationInRange(order, |names|);
        Some(Pick(names, order))
  }

  // ---------------------------------------------------------------------
  // What an accepted answer does
  // ---------------------------------------------------------------------

  lemma PickAppend(names: seq<string>, a: seq<int>, b: seq<int>)
    requires InRange(a, |names|) && InRange(b, |names|)
    ensures InRange(a + b, |names|)
    ensures Pick(names, a + b) == Pick(names, a) + Pick(names, b)
  {
  }

  lemma RemoveAt<T>(o: seq<T>, j: nat, x: T)
    requires j < |o| && o[j] == x
    ensures o == o[..j] + ([x] + o[j + 1..])
    ensures multiset(o) == multiset(o[..j] + o[j + 1..]) + multiset{x}
  {
    assert o == o[..j] + ([x] + o[j + 1..]);
  }

  lemma InRangeParts(o: seq<int>, j: nat, n: nat)
    requires InRange(o, n) && j < |o|
    ensures InRange(o[..j], n) && InRange([o[j]] + o[j + 1..], n) && InRange(o[j + 1..], n)
  {
    assert forall k :: 0 <= k < j ==> o[..j][k] == o[k];
    var c := [o[j]] + o[j + 1..];
    assert forall k :: 0 <= k < |c| ==> c[k] == o[j + k];
  }

  /** Taking one number out of an order: the names it picks lose exactly that one name. */
  lemma PickRemove(names: seq<string>, o: seq<int>, j: nat, rest: seq<int>, x: int)
    requires InRange(o, |names|) && j < |o| && o[j] == x
    requires rest == o[..j] + o[j + 1..]
    ensures InRange(rest, |names|) && 1 <= x <= |names|
    ensures multiset(o) == multiset(rest) + multiset{x}
    ensures multiset(Pick(names, o)) == multiset(Pick(names, rest)) + multiset{names[x - 1]}
  {
    RemoveAt(o, j, x);
    InRangeParts(o, j, |names|);
    var a, b := o[..j], o[j + 1..];
    PickAppend(names, a, [x] + b);
    PickAppend(names, a, b);
    assert Pick(names, [x] + b) == [names[x - 1]] + Pick(names, b);
    var pa, pb := Pick(names, a), Pick(names, b);
    assert multiset(Pick(names, o)) == multiset(pa) + (multiset{names[x - 1]} + multiset(pb));
  }

  lemma AddSame(m1: multiset<string>, m2: multiset<string>, p1: multiset<string>, p2: multiset<string>, y: string)
    requires p1 == m1 + multiset{y} && p2 == m2 + multiset{y} && m1 == m2
    ensures p1 == p2
  {
  }

  /** Rearranging by two orders holding the same numbers yields the same names, each as often. */
  lemma {:induction false} PickPermutes(names: seq<string>, o1: seq<int>, o2: seq<int>)
    requires InRange(o1, |names|) && InRange(o2, |names|)
    requires multiset(o1) == multiset(o2)
    ensures multiset(Pick(names, o1)) == multiset(Pick(names, o2))
    decreases |o1|
  {
    if o1 != [] {
      var x := o1[0];
      assert x in multiset(o1);
      var j :| 0 <= j < |o2| && o2[j] == x;
      var rest1 := o1[1..];
      var rest2 := o2[..j] + o2[j + 1..];
      assert rest1 == o1[..0] + o1[0 + 1..];
      PickRemove(names, o1, 0, rest1, x);
      PickRemove(names, o2, j, rest2, x);
      MultisetCancel(multiset(rest1), multiset(rest2), x);
      PickPermutes(names, rest1, rest2);
      AddSame(multiset(Pick(names, rest1)), multiset(Pick(names, rest2)),
              multiset(Pick(names, o1)), multiset(Pick(names, o2)), names[x - 1]);
    } else {
      assert |o2| == |multiset(o2)| == 0;
    }
  }

  lemma PickOneTo(names: seq<string>)
    ensures Pick(names, OneTo(|names|)) == names
  {
  }

  /** The answer is accepted exactly when it reads as integers forming a permutation of 1..n. */
  lemma ReorderAccepted(names: seq<string>, text: string)
    ensures Reorder(names, text).Some? <==>
      ParseOrder(text).Some? && multiset(ParseOrder(text).value) == multiset(OneTo(|names|))
  {
    if ParseOrder(text).Some? {
      SortCheck(ParseOrder(text).value, |names|);
    }
  }

  /** An accepted answer puts the domain numbered `order[k]` at position k: the same domains, each once, in the new order. */
  /** An accepted answer is a permutation of 1..n, and the new list picks the names in its order. */
  lemma ReorderIsPick(names: seq<string>, text: string)
    requires Reorder(names, text).Some?
    ensures ParseOrder(text).Some?
    ensures multiset(ParseOrder(text).value) == multiset(OneTo(|names|))
    ensures InRange(ParseOrder(text).value, |names|)
    ensures Reorder(names, text).value == Pick(names, ParseOrder(text).value)
  {
    var order := ParseOrder(text).value;
    SortCheck(order, |names|);
    PermutationInRange(order, |names|);
  }

  lemma ReorderPermutes(names: seq<string>, text: string)
    requires Reorder(names, text).Some?
    ensures ParseOrder(text).Some? && InRange(ParseOrder(text).value, |names|)
    ensures |Reorder(names, text).value| == |ParseOrder(text).value| == |names|
    ensures forall k :: 0 <= k < |names| ==>
              Reorder(names, text).value[k] == names[ParseOrder(text).value[k] - 1]
    ensures multiset(Reorder(names, text).value) == multiset(names)
  {
    ReorderIsPick(names, text);
    var order := ParseOrder(text).value;
    var r := Reorder(names, text).value;
    assert |order| == |multiset(order)| == |multiset(OneTo(|names|))| == |names|;
    PickPermutes(names, order, OneTo(|names|));
    PickOneTo(names);
  }

  /** Each number of `order` written out with `str`. */
  function Written(order: seq<int>): (ws: seq<string>)
    ensures |ws| == |order|
    ensures forall k :: 0 <= k < |order| ==> ws[k] == IntToString(order[k])
  {
    seq(|order|, k requires 0 <= k < |order| => IntToString(order[k]))
  }

  lemma WrittenCons(order: seq<int>)
    requires order != []
    ensures Written(order) == [IntToString(order[0])] + Written(order[1..])
  {
    var a, t := Written(order), Written(order[1..]);
    var b := [IntToString(order[0])] + t;
    forall k | 0 <= k < |a| ensures a[k] == b[k] {
      if k > 0 {
        assert b[k] == t[k - 1] == IntToString(order[1..][k - 1]);
      }
    }
  }

  /** The answer text that lists `order` as space-separated numbers. */
  function OrderText(order: seq<int>): string {
    Join(Written(order), ' ')
  }

  lemma {:induction false} NoCommaInJoin(ws: seq<string>)
    requires forall k :: 0 <= k < |ws| ==> IsDigits(ws[k])
    ensures ',' !in Join(ws, ' ')
  {
    if ws != [] {
      NoCommaInJoin(ws[1..]);
      assert forall i :: 0 <= i < |ws[0]| ==> ws[0][i] != ',';
    }
  }

  /** Positive numbers written out with spaces between them are read back. */
  lemma ParseOrderText(order: seq<int>)
    requires forall k :: 0 <= k < |order| ==> order[k] >= 1
    ensures ParseOrder(OrderText(order)) == Some(order)
  {
    var ws := Written(order);
    var text := Join(ws, ' ');
    forall k | 0 <= k < |ws| ensures IsDigits(ws[k]) && IsWord(ws[k]) && ParseInt(ws[k]) == Some(order[k]) {
      ParseIntOfNat(order[k]);
      DigitsAreWord(ws[k]);
    }
    assert ReplaceChar(text, ',', " ") == text by {
      NoCommaInJoin(ws);
      ReplaceCharAbsent(text, ',', " ");
    }
    assert Words(text) == ws by {
      WordsJoin(ws);
    }
    assert ParseAll(ws).value == order;
  }

  /** The answer text that lists `order` with ", " between the numbers, as users often type it. */
  function CommaText(order: seq<int>): string
    decreases |order|
  {
    if |order| == 0 then []
    else if |order| == 1 then IntToString(order[0])
    else IntToString(order[0]) + ", " + CommaText(order[1..])
  }

  lemma DigitsHaveNoComma(s: string)
    requires IsDigits(s)
    ensures ',' !in s
  {
    assert forall i :: 0 <= i < |s| ==> s[i] != ',';
  }

  /** Reading commas as spaces turns ", " after a comma-free number into two spaces. */
  lemma CommaStepReplace(x: string, y: string)
    requires ',' !in x
    ensures ReplaceChar(x + ", " + y, ',', " ") == x + [' '] + ([' '] + ReplaceChar(y, ',', " "))
  {
    ReplaceCharAbsent(x, ',', " ");
    assert x + ", " + y == x + [','] + ([' '] + y);
    ReplaceCharAppend(x + [','], [' '] + y, ',', " ");
    ReplaceCharAppend(x, [','], ',', " ");
    ReplaceCharAppend([' '], y, ',', " ");
    assert ReplaceChar([','], ',', " ") == " " && ReplaceChar([' '], ',', " ") == " ";
  }

  /** A word followed by two spaces is read off on its own. */
  lemma CommaStepWords(x: string, z: string)
    requires IsWord(x)
    ensures Words(x + [' '] + ([' '] + z)) == [x] + Words(z)
  {
    WordsSplitAtSpace(x, ' ', [' '] + z);
    WordsOne(x);
    assert ([' '] + z)[1..] == z;
  }

  /** With commas read as spaces, the words of a ", "-separated answer are the numbers written out. */
  lemma {:induction false} CommaTextWords(order: seq<int>)
    requires forall k :: 0 <= k < |order| ==> order[k] >= 1
    ensures Words(ReplaceChar(CommaText(order), ',', " ")) == Written(order)
    decreases |order|
  {
    if |order| == 1 {
      var x := IntToString(order[0]);
      DigitsHaveNoComma(x);
      ReplaceCharAbsent(x, ',', " ");
      DigitsAreWord(x);
      WordsOne(x);
    } else if |order| > 1 {
      var x := IntToString(order[0]);
      var y := CommaText(order[1..]);
      DigitsHaveNoComma(x);
      DigitsAreWord(x);
      CommaStepReplace(x, y);
      CommaStepWords(x, ReplaceChar(y, ',', " "));
      CommaTextWords(order[1..]);
      WrittenCons(order);
    }
  }

  /** Positive numbers written out with ", " between them are read back: "3, 1, 2" gives 3, 1, 2. */
  lemma CommaTextParses(order: seq<int>)
    requires forall k :: 0 <= k < |order| ==> order[k] >= 1
    ensures ParseOrder(CommaText(order)) == Some(order)
  {
    var ws := Written(order);
    forall k | 0 <= k < |ws| ensures ParseInt(ws[k]) == Some(order[k]) {
      ParseIntOfNat(order[k]);
      DigitsAreWord(ws[k]);
    }
    CommaTextWords(order);
    assert ParseAll(ws).value == order;
  }

  /** Typing a permutation of 1..n as space-separated numbers rearranges the list by exactly that permutation. */
  lemma ReorderTyped(names: seq<string>, order: seq<int>)
    requires multiset(order) == multiset(OneTo(|names|))
    ensures InRange(order, |names|)
    ensures Reorder(names, OrderText(order)) == Some(Pick(names, order))
  {
    PermutationInRange(order, |names|);
    ParseOrderText(order);
    SortCheck(order, |names|);
  }
}
