/** Ordering of sidebar nodes by their text. The editor sorts with LINQ's
    OrderBy under the culture's string comparison; here the comparison is
    an arbitrary total preorder on strings, and OrderBy is an insertion
    sort, stable like OrderBy: an element goes after every element whose key
    is not greater. */
module TextSort {

  /** `le` is a total preorder: any two keys compare, and the comparison is transitive. */
  ghost predicate TotalPreorder(le: (string, string) -> bool) {
    && (forall a, b :: le(a, b) || le(b, a))
    && (forall a, b, c :: le(a, b) && le(b, c) ==> le(a, c))
  }

  /** The elements' keys are in non-decreasing order. */
  ghost predicate Sorted<T>(key: T -> string, le: (string, string) -> bool, s: seq<T>) {
    forall i, j :: 0 <= i < j < |s| ==> le(key(s[i]), key(s[j]))
  }

  /** Inserts `x` into a sorted sequence after every element whose key is not greater than its own. */
  function Insert<T>(key: T -> string, le: (string, string) -> bool, s: seq<T>, x: T): (r: seq<T>)
    requires TotalPreorder(le) && Sorted(key, le, s)
    ensures |r| == |s| + 1
    ensures multiset(r) == multiset(s) + multiset{x}
    ensures Sorted(key, le, r)
    decreases |s|
  {
    if |s| == 0 then [x]
    else if !le(key(s[0]), key(x)) then
      assert forall k :: 0 <= k < |s| ==> le(key(x), key(s[k])) by {
        forall k | 0 <= k < |s| ensures le(key(x), key(s[k])) {
          if k > 0 {
            assert le(key(s[0]), key(s[k]));
          }
        }
      }
      [x] + s
    else
      assert Sorted(key, le, s[1..]);
      var rest := Insert(key, le, s[1..], x);
      assert s == [s[0]] + s[1..];
      HeadBelowRest(key, le, s, x, rest);
      [s[0]] + rest
  }

  /** The head of a sorted sequence is not above any element of its tail
      with an element not below the head added. */
  lemma HeadBelowRest<T>(key: T -> string, le: (string, string) -> bool, s: seq<T>, x: T, rest: seq<T>)
    requires TotalPreorder(le) && Sorted(key, le, s)
    requires |s| > 0 && le(key(s[0]), key(x))
    requires multiset(rest) == multiset(s[1..]) + multiset{x}
    ensures forall k :: 0 <= k < |rest| ==> le(key(s[0]), key(rest[k]))
  {
    forall k | 0 <= k < |rest| ensures le(key(s[0]), key(rest[k])) {
      assert rest[k] in multiset(s[1..]) + multiset{x};
      if rest[k] in multiset(s[1..]) {
        var m :| 0 <= m < |s[1..]| && s[1..][m] == rest[k];
        assert s[m + 1] == rest[k];
      }
    }
  }

  /** Inserting an element whose key is not below any key of the sequence appends it. */
  lemma {:induction false} InsertLast<T>(key: T -> string, le: (string, string) -> bool, s: seq<T>, x: T)
    requires TotalPreorder(le) && Sorted(key, le, s)
    requires forall k :: 0 <= k < |s| ==> le(key(s[k]), key(x))
    ensures Insert(key, le, s, x) == s + [x]
    decreases |s|
  {
    if |s| > 0 {
      assert Sorted(key, le, s[1..]);
      InsertLast(key, le, s[1..], x);
      assert s == [s[0]] + s[1..];
    }
  }

  /** OrderBy: sorts by inserting the elements one at a time, in order. */
  function Sort<T>(key: T -> string, le: (string, string) -> bool, s: seq<T>): (r: seq<T>)
    requires TotalPreorder(le)
    ensures |r| == |s|
    ensures multiset(r) == multiset(s)
    ensures Sorted(key, le, r)
    decreases |s|
  {
    if |s| == 0 then []
    else
      assert s == s[..|s| - 1] + [s[|s| - 1]];
      Insert(key, le, Sort(key, le, s[..|s| - 1]), s[|s| - 1])
  }

  /** Sorting a sorted sequence leaves it as it is, so re-sorting after each
      addition only places the new element. */
  lemma {:induction false} SortSortedIdentity<T>(key: T -> string, le: (string, string) -> bool, s: seq<T>)
    requires TotalPreorder(le) && Sorted(key, le, s)
    ensures Sort(key, le, s) == s
    decreases |s|
  {
    if |s| > 0 {
      var init := s[..|s| - 1];
      assert Sorted(key, le, init);
      SortSortedIdentity(key, le, init);
      InsertLast(key, le, init, s[|s| - 1]);
      assert init + [s[|s| - 1]] == s;
    }
  }

  /** Sorting a sorted sequence with one element added inserts that element. */
  lemma SortAppended<T>(key: T -> string, le: (string, string) -> bool, s: seq<T>, x: T)
    requires TotalPreorder(le) && Sorted(key, le, s)
    ensures Sort(key, le, s + [x]) == Insert(key, le, s, x)
  {
    assert (s + [x])[..|s|] == s;
    SortSortedIdentity(key, le, s);
  }
}
