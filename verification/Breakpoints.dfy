/**
 The breakpoints of gdb_protocol.c:60-106 as a set of addresses, and the sorted table that
 stands for it.
 */
module Breakpoints {
  import opened Words

  const MAX_BREAKPOINTS := 1024

  // ---------- the reference machine ----------

  datatype Request = Insert(address: word) | Delete(address: word)

  // A full table refuses every insertion, even of an address it has.
  function Answer(s: set<word>, r: Request): (r': (set<word>, bool)) {
    match r
    case Insert(a) => if |s| >= MAX_BREAKPOINTS then (s, false) else (s + {a}, true)
    case Delete(a) => if a in s then (s - {a}, true) else (s, false)
  }

  function AnswerAll(s: set<word>, requests: seq<Request>): (r: (set<word>, seq<bool>))
    ensures |r.1| == |requests|
    decreases |requests|
  {
    if requests == [] then (s, [])
    else
      var last := |requests| - 1;
      var (s1, answers) := AnswerAll(s, requests[..last]);
      var (s2, answer) := Answer(s1, requests[last]);
      (s2, answers + [answer])
  }

  lemma AnswerLast(s: set<word>, requests: seq<Request>, r: Request)
    ensures var (s1, answers) := AnswerAll(s, requests);
            var (s2, answer) := Answer(s1, r);
            AnswerAll(s, requests + [r]) == (s2, answers + [answer])
  {
    assert (requests + [r])[..|requests|] == requests;
  }

  // ---------- sorted tables ----------

  predicate Sorted(t: seq<word>) {
    forall i, j :: 0 <= i < j < |t| ==> t[i] < t[j]
  }

  function SetOf(t: seq<word>): (s: set<word>) {
    set a | a in t
  }

  lemma {:induction false} SortedSize(t: seq<word>)
    requires Sorted(t)
    ensures |SetOf(t)| == |t|
    decreases |t|
  {
    if t != [] {
      var front, last := t[..|t| - 1], t[|t| - 1];
      SortedSize(front);
      assert SetOf(t) == SetOf(front) + {last} by {
        assert t == front + [last];
      }
      assert last !in front;
    }
  }

  lemma LastIsLargest(t: seq<word>, a: word)
    requires Sorted(t) && a in SetOf(t)
    ensures a <= t[|t| - 1]
  {
  }

  lemma FrontSet(t: seq<word>)
    requires Sorted(t) && t != []
    ensures SetOf(t[..|t| - 1]) == SetOf(t) - {t[|t| - 1]}
  {
    var front, last := t[..|t| - 1], t[|t| - 1];
    assert t == front + [last];
    assert last !in front;
  }

  // A set has one sorted table only.
  lemma {:induction false} SortedUnique(t: seq<word>, u: seq<word>)
    requires Sorted(t) && Sorted(u) && SetOf(t) == SetOf(u)
    ensures t == u
    decreases |t|
  {
    assert |t| == |u| by {
      SortedSize(t);
      SortedSize(u);
    }
    if t != [] {
      var n := |t| - 1;
      LastIsLargest(u, t[n]);
      LastIsLargest(t, u[n]);
      FrontSet(t);
      FrontSet(u);
      SortedUnique(t[..n], u[..n]);
      assert t == t[..n] + [t[n]] && u == u[..n] + [u[n]];
    }
  }

  // ---------- the two updates of the table ----------

  function InsertedAt(t: seq<word>, j: nat, a: word): (t': seq<word>)
    requires j <= |t|
  {
    t[..j] + [a] + t[j..]
  }

  lemma InsertKeepsOrder(t: seq<word>, j: nat, a: word)
    requires Sorted(t) && j <= |t| && a !in t
    requires (j > 0 ==> t[j - 1] <= a) && (j < |t| ==> t[j] > a)
    ensures Sorted(InsertedAt(t, j, a))
  {
    var u := InsertedAt(t, j, a);
    assert j > 0 ==> t[j - 1] in t;
    assert forall i :: 0 <= i < j ==> u[i] == t[i] < a;
    assert forall i :: j < i < |u| ==> u[i] == t[i - 1] > a;
  }

  lemma InsertAddsAddress(t: seq<word>, j: nat, a: word)
    requires j <= |t|
    ensures SetOf(InsertedAt(t, j, a)) == SetOf(t) + {a}
  {
    assert t == t[..j] + t[j..];
    var u := InsertedAt(t, j, a);
    assert forall x :: x in u <==> x in t[..j] || x == a || x in t[j..];
    assert forall x :: x in t <==> x in t[..j] || x in t[j..];
  }

  function DeletedAt(t: seq<word>, j: nat): (t': seq<word>)
    requires j < |t|
  {
    t[..j] + t[j + 1..]
  }

  lemma DeleteKeeps(t: seq<word>, j: nat)
    requires Sorted(t) && j < |t|
    ensures Sorted(DeletedAt(t, j)) && SetOf(DeletedAt(t, j)) == SetOf(t) - {t[j]}
  {
    var u := DeletedAt(t, j);
    assert t == t[..j] + [t[j]] + t[j + 1..];
    assert t[j] !in t[..j] && t[j] !in t[j + 1..];
  }
}
