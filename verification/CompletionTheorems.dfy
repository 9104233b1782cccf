/** The completion list does not depend on the order in which its items were found. */
module CompletionTheorems {
  import opened Sorting
  import opened Completion

  ghost predicate DistinctKeys(items: seq<CompletionItem>)
  {
    forall i, j :: 0 <= i < j < |items| ==> Key(items[i]) != Key(items[j])
  }

  /** Items with the same key are the same. */
  ghost predicate KeysDetermine(items: seq<CompletionItem>)
  {
    forall i, j :: 0 <= i < |items| && 0 <= j < |items| && Key(items[i]) == Key(items[j]) ==> items[i] == items[j]
  }

  /** The item is the first of its key. */
  ghost predicate FirstOfKey(items: seq<CompletionItem>, item: CompletionItem)
  {
    exists i :: 0 <= i < |items| && items[i] == item && !HasKey(items[..i], Key(item))
  }

  lemma KeyIn(items: seq<CompletionItem>, i: nat)
    requires i < |items|
    ensures HasKey(items, Key(items[i]))
  {
  }

  lemma {:induction false} DedupeKeys(items: seq<CompletionItem>)
    ensures DistinctKeys(Dedupe(items))
    ensures forall key :: HasKey(Dedupe(items), key) <==> HasKey(items, key)
    decreases |items|
  {
    if items != [] {
      var front, last := items[..|items| - 1], items[|items| - 1];
      assert items == front + [last];
      DedupeKeys(front);
      KeysGrow(front, last);
      KeysGrow(Dedupe(front), last);
      if !HasKey(front, Key(last)) {
        forall i | 0 <= i < |Dedupe(front)|
          ensures Key(Dedupe(front)[i]) != Key(last)
        {
          KeyIn(Dedupe(front), i);
        }
      }
    }
  }

  lemma FirstLater(items: seq<CompletionItem>, last: CompletionItem, item: CompletionItem)
    ensures FirstOfKey(items + [last], item) <==> FirstOfKey(items, item) || (item == last && !HasKey(items, Key(last)))
  {
    var all := items + [last];
    forall i | 0 <= i <= |items|
      ensures all[..i] == items[..i]
    {
    }
    assert items[..|items|] == items;
    if FirstOfKey(items, item) {
      var i :| 0 <= i < |items| && items[i] == item && !HasKey(items[..i], Key(item));
      assert all[i] == item && !HasKey(all[..i], Key(item));
    }
    if item == last && !HasKey(items, Key(last)) {
      assert all[|items|] == item && !HasKey(all[..|items|], Key(item));
    }
  }

  /** What is kept is exactly the first item of every key. */
  lemma {:induction false} DedupeKeepsFirst(items: seq<CompletionItem>)
    ensures forall item :: item in Dedupe(items) <==> FirstOfKey(items, item)
    decreases |items|
  {
    if items != [] {
      var front, last := items[..|items| - 1], items[|items| - 1];
      assert items == front + [last];
      DedupeKeepsFirst(front);
      forall item
        ensures item in Dedupe(items) <==> FirstOfKey(items, item)
      {
        FirstLater(front, last, item);
      }
    }
  }

  lemma InPermutation(items: seq<CompletionItem>, items': seq<CompletionItem>)
    requires multiset(items) == multiset(items')
    ensures forall item :: item in items <==> item in items'
  {
    forall item
      ensures item in items <==> item in items'
    {
      assert item in items <==> item in multiset(items);
      assert item in items' <==> item in multiset(items');
    }
  }

  lemma CountedTwice(xs: seq<CompletionItem>, i: nat, j: nat)
    requires i < j < |xs| && xs[i] == xs[j]
    ensures multiset(xs)[xs[i]] >= 2
  {
    assert xs == xs[..i] + ([xs[i]] + (xs[i + 1..j] + ([xs[j]] + xs[j + 1..])));
  }

  /** In a permutation of items with distinct keys every key still stands once. */
  lemma {:induction false} KeysPermute(xs: seq<CompletionItem>, ys: seq<CompletionItem>)
    requires multiset(xs) == multiset(ys) && DistinctKeys(ys)
    ensures DistinctKeys(xs)
  {
    forall i, j | 0 <= i < j < |xs|
      ensures Key(xs[i]) != Key(xs[j])
    {
      InPermutation(xs, ys);
      assert xs[i] in ys && xs[j] in ys;
      if Key(xs[i]) == Key(xs[j]) {
        OneOfKey(ys, xs[i], xs[j]);
        CountedTwice(xs, i, j);
        DistinctMultiset(ys, xs[i]);
      }
    }
  }

  lemma CompleteIs(items: seq<CompletionItem>)
    ensures Sorted(Complete(items), ItemLess) && DistinctKeys(Complete(items))
    ensures forall item :: item in Complete(items) <==> FirstOfKey(items, item)
  {
    var xs := Dedupe(items);
    ItemOrder();
    StableSortSorts(xs, ItemLess);
    DedupeKeys(items);
    DedupeKeepsFirst(items);
    InPermutation(Complete(items), xs);
    KeysPermute(Complete(items), xs);
  }

  /** Reading the items: sorted, and exactly the first item of every key, once. */
  method CompletionItems(items: seq<CompletionItem>) returns (r: seq<CompletionItem>)
    ensures r == Complete(items)
    ensures Sorted(r, ItemLess) && DistinctKeys(r)
    ensures forall item :: item in r <==> FirstOfKey(items, item)
  {
    var deduped := DedupeCompletionItems(items);
    r := StableSort(deduped, ItemLess);
    CompleteIs(items);
  }

  /** With the keys deciding, what is kept is every item, once. */
  lemma KeptAreAll(items: seq<CompletionItem>)
    requires KeysDetermine(items)
    ensures forall item :: item in Dedupe(items) <==> item in items
  {
    DedupeKeepsFirst(items);
    DedupeKeys(items);
    forall item | item in items
      ensures item in Dedupe(items)
    {
      var i :| 0 <= i < |items| && items[i] == item;
      KeyIn(items, i);
      var k :| 0 <= k < |Dedupe(items)| && Key(Dedupe(items)[k]) == Key(item);
      assert FirstOfKey(items, Dedupe(items)[k]);
      assert Dedupe(items)[k] in items;
    }
  }

  lemma {:induction false} DistinctMultiset(xs: seq<CompletionItem>, item: CompletionItem)
    requires DistinctKeys(xs)
    ensures multiset(xs)[item] == if item in xs then 1 else 0
    decreases |xs|
  {
    if xs != [] {
      var front, last := xs[..|xs| - 1], xs[|xs| - 1];
      assert xs == front + [last];
      DistinctMultiset(front, item);
      forall k | 0 <= k < |front|
        ensures front[k] != last
      {
        assert Key(xs[k]) != Key(xs[|xs| - 1]);
      }
    }
  }

  lemma SameMultiset(xs: seq<CompletionItem>, ys: seq<CompletionItem>)
    requires DistinctKeys(xs) && DistinctKeys(ys)
    requires forall item :: item in xs <==> item in ys
    ensures multiset(xs) == multiset(ys)
  {
    forall item
      ensures multiset(xs)[item] == multiset(ys)[item]
    {
      DistinctMultiset(xs, item);
      DistinctMultiset(ys, item);
    }
  }

  /** A list with distinct keys has one sorted order only. */
  lemma SortedOnce(xs: seq<CompletionItem>, ys: seq<CompletionItem>)
    requires DistinctKeys(xs) && multiset(xs) == multiset(ys)
    ensures StableSort(xs, ItemLess) == StableSort(ys, ItemLess)
  {
    ItemOrder();
    StableSortSorts(xs, ItemLess);
    StableSortSorts(ys, ItemLess);
    var s, t := StableSort(xs, ItemLess), StableSort(ys, ItemLess);
    forall i, j | 0 <= i < |s| && 0 <= j < |s| && !ItemLess(s[i], s[j]) && !ItemLess(s[j], s[i])
      ensures s[i] == s[j]
    {
      ItemsOrdered(s[i], s[j]);
      assert Key(s[i]) == Key(s[j]);
      InPermutation(s, xs);
      assert s[i] in xs && s[j] in xs;
    }
    SortedUnique(s, t, ItemLess);
  }

  lemma OrderDoesNotMatter(items: seq<CompletionItem>, items': seq<CompletionItem>)
    requires KeysDetermine(items) && multiset(items) == multiset(items')
    ensures Complete(items) == Complete(items')
  {
    InPermutation(items, items');
    assert KeysDetermine(items') by {
      forall i, j | 0 <= i < |items'| && 0 <= j < |items'| && Key(items'[i]) == Key(items'[j])
        ensures items'[i] == items'[j]
      {
        assert items'[i] in items && items'[j] in items;
      }
    }
    KeptAreAll(items);
    KeptAreAll(items');
    DedupeKeys(items);
    DedupeKeys(items');
    SameMultiset(Dedupe(items), Dedupe(items'));
    SortedOnce(Dedupe(items), Dedupe(items'));
  }

  function ToFront(items: seq<CompletionItem>, i: nat): seq<CompletionItem>
    requires i < |items|
  {
    [items[i]] + (items[..i] + items[i + 1..])
  }

  lemma FrontPermutes(items: seq<CompletionItem>, i: nat)
    requires i < |items|
    ensures multiset(ToFront(items, i)) == multiset(items)
  {
    assert items == items[..i] + [items[i]] + items[i + 1..];
  }

  lemma OneOfKey(xs: seq<CompletionItem>, x: CompletionItem, y: CompletionItem)
    requires DistinctKeys(xs) && x in xs && Key(x) == Key(y)
    ensures y in xs ==> x == y
  {
    forall i, j | 0 <= i < |xs| && 0 <= j < |xs| && xs[i] == x && xs[j] == y
      ensures x == y
    {
    }
  }

  lemma FrontIsKept(items: seq<CompletionItem>, i: nat, other: CompletionItem)
    requires i < |items| && Key(other) == Key(items[i]) && other != items[i]
    ensures items[i] in Complete(ToFront(items, i)) && other !in Complete(ToFront(items, i))
  {
    var p := ToFront(items, i);
    DedupeKeepsFirst(p);
    DedupeKeys(p);
    assert p[0] == items[i] && !HasKey(p[..0], Key(p[0]));
    assert FirstOfKey(p, items[i]);
    OneOfKey(Dedupe(p), items[i], other);
    InPermutation(Complete(p), Dedupe(p));
  }

  ghost predicate OrderIndependent(items: seq<CompletionItem>)
  {
    forall items' :: multiset(items') == multiset(items) ==> Complete(items') == Complete(items)
  }

  /** The finished list is the same for every order of its input exactly if no two different items share a key. */
  lemma OrderIndependence(items: seq<CompletionItem>)
    ensures OrderIndependent(items) <==> KeysDetermine(items)
  {
    if KeysDetermine(items) {
      forall items' | multiset(items') == multiset(items)
        ensures Complete(items') == Complete(items)
      {
        OrderDoesNotMatter(items, items');
      }
    } else {
      var i, j :| 0 <= i < |items| && 0 <= j < |items| && Key(items[i]) == Key(items[j]) && items[i] != items[j];
      FrontPermutes(items, i);
      FrontPermutes(items, j);
      FrontIsKept(items, i, items[j]);
      FrontIsKept(items, j, items[i]);
      assert Complete(ToFront(items, i)) != Complete(ToFront(items, j));
    }
  }

  /** In the finished list an item never comes before one with a higher score, nor, scores equal, before one with a
      smaller label. */
  lemma BestFirst(items: seq<CompletionItem>, i: nat, j: nat, a: nat, b: nat)
    requires i < j < |Complete(items)| && a <= 9999 && b <= 9999
    requires Complete(items)[i].sortText == SortKey(a, Complete(items)[i].text)
    requires Complete(items)[j].sortText == SortKey(b, Complete(items)[j].text)
    ensures a > b || (a == b && !Less(Complete(items)[j].text, Complete(items)[i].text))
  {
    ItemOrder();
    StableSortSorts(Dedupe(items), ItemLess);
    var x, y := Complete(items)[i], Complete(items)[j];
    assert !ItemLess(y, x);
    KeyOrder(a, x.text, b, y.text);
    KeyOrder(b, y.text, a, x.text);
    LessTotal(x.sortText, y.sortText);
    LessTotal(x.text, y.text);
  }

  /** The finished list is in strict order of sort text, then label, then detail. */
  lemma StrictOrder(items: seq<CompletionItem>, i: nat, j: nat)
    requires i < j < |Complete(items)|
    ensures var x, y := Complete(items)[i], Complete(items)[j];
      || Less(x.sortText, y.sortText)
      || (x.sortText == y.sortText && (Less(x.text, y.text) || (x.text == y.text && Less(x.detail, y.detail))))
  {
    var x, y := Complete(items)[i], Complete(items)[j];
    CompleteIs(items);
    assert !ItemLess(y, x) && Key(x) != Key(y);
    LessTotal(x.sortText, y.sortText);
    LessTotal(x.text, y.text);
    LessTotal(x.detail, y.detail);
  }

  lemma NulInside(a: string, b: string, s: string, t: string)
    requires a + ("\0" + s) == b + ("\0" + t) && |b| < |a|
    ensures '\0' in a
  {
    assert a[|b|] == (b + ("\0" + t))[|b|];
  }

  /** Labels without a NUL are duplicates exactly if label and detail are the same. */
  lemma SameKey(x: CompletionItem, y: CompletionItem)
    requires '\0' !in x.text && '\0' !in y.text
    ensures Key(x) == Key(y) <==> x.text == y.text && x.detail == y.detail
  {
    if Key(x) == Key(y) {
      if |y.text| < |x.text| {
        NulInside(x.text, y.text, x.detail, y.detail);
      } else if |x.text| < |y.text| {
        NulInside(y.text, x.text, y.detail, x.detail);
      }
      assert Key(x)[..|x.text|] == x.text && Key(y)[..|y.text|] == y.text;
      assert Key(x)[|x.text| + 1..] == x.detail && Key(y)[|y.text| + 1..] == y.detail;
    }
  }
}
