/** The field view modules the admin-UI entry file imports: every field's
    `views` and, when set, its `ui.views`, gathered across all lists into an
    insertion-ordered set (a JavaScript `Set`). */
module AppViews {
  import opened Wrappers

  datatype FieldConfig = FieldConfig(views: string, uiViews: Option<string>)

  /** A list's fields, in the order of their keys. */
  datatype ListConfig = ListConfig(fields: seq<FieldConfig>)

  /** The view paths one field contributes, in the order they are added:
      `ui.views` only when it is set to a non-empty string (a truthy value). */
  function FieldViewPaths(f: FieldConfig): seq<string>
  {
    if f.uiViews.Some? && f.uiViews.value != "" then [f.views, f.uiViews.value] else [f.views]
  }

  /** The view paths of a sequence of fields, in order, duplicates included. */
  function FieldsViewPaths(fields: seq<FieldConfig>): seq<string>
  {
    if |fields| == 0 then [] else FieldsViewPaths(fields[..|fields| - 1]) + FieldViewPaths(fields[|fields| - 1])
  }

  /** The view paths of all lists, in order, duplicates included. */
  function ListsViewPaths(lists: seq<ListConfig>): seq<string>
  {
    if |lists| == 0 then [] else ListsViewPaths(lists[..|lists| - 1]) + FieldsViewPaths(lists[|lists| - 1].fields)
  }

  /** `Set.prototype.add` on an insertion-ordered set. */
  function Add<T(==)>(ordered: seq<T>, x: T): seq<T>
  {
    if x in ordered then ordered else ordered + [x]
  }

  /** The insertion-ordered set obtained by adding the elements of `s` in order. */
  function Dedup<T(==)>(s: seq<T>): seq<T>
  {
    if |s| == 0 then [] else Add(Dedup(s[..|s| - 1]), s[|s| - 1])
  }

  /** No element occurs twice. */
  predicate Distinct<T(==)>(s: seq<T>)
  {
    forall i, j :: 0 <= i < j < |s| ==> s[i] != s[j]
  }

  /** The index of the first occurrence of `x` in `s`. */
  function FirstIndex<T(==)>(s: seq<T>, x: T): (i: nat)
    requires x in s
    ensures i < |s| && s[i] == x && x !in s[..i]
  {
    if s[0] == x then 0 else 1 + FirstIndex(s[1..], x)
  }

  lemma {:induction false} FirstIndexAppend<T>(s: seq<T>, t: seq<T>, x: T)
    requires x in s
    ensures FirstIndex(s + t, x) == FirstIndex(s, x)
  {
    if s[0] != x {
      assert (s + t)[1..] == s[1..] + t;
      FirstIndexAppend(s[1..], t, x);
    }
  }

  /** The insertion-ordered set holds no element twice. */
  lemma {:induction false} DedupDistinct<T>(s: seq<T>)
    ensures Distinct(Dedup(s))
  {
    if |s| > 0 {
      DedupDistinct(s[..|s| - 1]);
    }
  }

  /** The insertion-ordered set holds exactly the elements added. */
  lemma {:induction false} DedupSameElements<T>(s: seq<T>)
    ensures forall x :: x in Dedup(s) <==> x in s
    ensures forall k :: 0 <= k < |Dedup(s)| ==> Dedup(s)[k] in s
  {
    if |s| > 0 {
      var init := s[..|s| - 1];
      DedupSameElements(init);
      assert s == init + [s[|s| - 1]];
    }
  }

  /** `d` lists elements of `s` in the order of their first occurrence in `s`. */
  ghost predicate InFirstOccurrenceOrder<T>(s: seq<T>, d: seq<T>)
  {
    forall i, j :: 0 <= i < j < |d| ==>
      d[i] in s && d[j] in s && FirstIndex(s, d[i]) < FirstIndex(s, d[j])
  }

  lemma DedupOrderStep<T>(init: seq<T>, last: T)
    requires InFirstOccurrenceOrder(init, Dedup(init))
    ensures InFirstOccurrenceOrder(init + [last], Dedup(init + [last]))
  {
    var s := init + [last];
    assert s[..|s| - 1] == init;
    var d := Dedup(init);
    DedupSameElements(init);
    forall k | 0 <= k < |d|
      ensures d[k] in init && d[k] in s && FirstIndex(s, d[k]) == FirstIndex(init, d[k])
    {
      FirstIndexAppend(init, [last], d[k]);
    }
    if last !in d {
      assert FirstIndex(s, last) == |init|;
    }
  }

  /** The insertion-ordered set lists its elements in the order of their first insertion. */
  lemma {:induction false} DedupFirstInsertionOrder<T>(s: seq<T>)
    ensures InFirstOccurrenceOrder(s, Dedup(s))
  {
    if |s| > 0 {
      var init, last := s[..|s| - 1], s[|s| - 1];
      DedupFirstInsertionOrder(init);
      DedupOrderStep(init, last);
      assert s == init + [last];
    }
  }

  /** A path is collected exactly when some field of some list contributes it. */
  lemma {:induction false} ListsViewPathsMembers(lists: seq<ListConfig>, x: string)
    ensures x in ListsViewPaths(lists) <==>
      exists i, j :: 0 <= i < |lists| && 0 <= j < |lists[i].fields| &&
        x in FieldViewPaths(lists[i].fields[j])
  {
    if |lists| > 0 {
      var init := lists[..|lists| - 1];
      ListsViewPathsMembers(init, x);
      FieldsViewPathsMembers(lists[|lists| - 1].fields, x);
      assert forall i :: 0 <= i < |init| ==> init[i] == lists[i];
    }
  }

  lemma {:induction false} FieldsViewPathsMembers(fields: seq<FieldConfig>, x: string)
    ensures x in FieldsViewPaths(fields) <==>
      exists j :: 0 <= j < |fields| && x in FieldViewPaths(fields[j])
  {
    if |fields| > 0 {
      var init := fields[..|fields| - 1];
      FieldsViewPathsMembers(init, x);
      assert forall j :: 0 <= j < |init| ==> init[j] == fields[j];
    }
  }

  lemma DedupAppend<T>(s: seq<T>, x: T)
    ensures Dedup(s + [x]) == Add(Dedup(s), x)
  {
    assert (s + [x])[..|s|] == s;
  }

  lemma FieldsViewPathsPrefix(fields: seq<FieldConfig>, j: int)
    requires 0 <= j < |fields|
    ensures FieldsViewPaths(fields[..j + 1]) == FieldsViewPaths(fields[..j]) + FieldViewPaths(fields[j])
  {
    assert fields[..j + 1][..j] == fields[..j];
  }

  lemma ListsViewPathsPrefix(lists: seq<ListConfig>, i: int)
    requires 0 <= i < |lists|
    ensures ListsViewPaths(lists[..i + 1]) == ListsViewPaths(lists[..i]) + FieldsViewPaths(lists[i].fields)
  {
    assert lists[..i + 1][..i] == lists[..i];
  }

  /** Adding one field's view paths to the insertion-ordered set of `done`. */
  lemma AddFieldViews(done: seq<string>, f: FieldConfig)
    ensures Dedup(done + FieldViewPaths(f)) ==
      var withViews := Add(Dedup(done), f.views);
      if f.uiViews.Some? && f.uiViews.value != "" then Add(withViews, f.uiViews.value) else withViews
  {
    DedupAppend(done, f.views);
    if f.uiViews.Some? && f.uiViews.value != "" {
      DedupAppend(done + [f.views], f.uiViews.value);
      assert done + FieldViewPaths(f) == done + [f.views] + [f.uiViews.value];
    }
  }

  /** The nested loops of the generator: every field of every list adds its
      `views`, then its `ui.views` when set, to the insertion-ordered set. */
  method CollectViews(lists: seq<ListConfig>) returns (allViews: seq<string>)
    ensures allViews == Dedup(ListsViewPaths(lists))
    ensures Distinct(allViews)
    ensures InFirstOccurrenceOrder(ListsViewPaths(lists), allViews)
    ensures forall x :: x in allViews <==>
      exists i, j :: 0 <= i < |lists| && 0 <= j < |lists[i].fields| &&
        x in FieldViewPaths(lists[i].fields[j])
  {
    allViews := [];
    var i := 0;
    while i < |lists|
      invariant 0 <= i <= |lists|
      invariant allViews == Dedup(ListsViewPaths(lists[..i]))
    {
      var fields := lists[i].fields;
      ghost var before := ListsViewPaths(lists[..i]);
      var j := 0;
      assert before + FieldsViewPaths(fields[..j]) == before;
      while j < |fields|
        invariant 0 <= j <= |fields|
        invariant allViews == Dedup(before + FieldsViewPaths(fields[..j]))
      {
        var field := fields[j];
        ghost var done := before + FieldsViewPaths(fields[..j]);
        AddFieldViews(done, field);
        allViews := Add(allViews, field.views);
        if field.uiViews.Some? && field.uiViews.value != "" {
          allViews := Add(allViews, field.uiViews.value);
        }
        FieldsViewPathsPrefix(fields, j);
        assert before + FieldsViewPaths(fields[..j + 1]) == done + FieldViewPaths(field);
        j := j + 1;
      }
      assert fields[..j] == fields;
      ListsViewPathsPrefix(lists, i);
      i := i + 1;
    }
    assert lists[..i] == lists;
    CollectedViewsProperties(lists);
  }

  /** What the collected views promise: no duplicates, first-insertion order, and
      exactly the paths some field contributes. */
  lemma CollectedViewsProperties(lists: seq<ListConfig>)
    ensures Distinct(Dedup(ListsViewPaths(lists)))
    ensures InFirstOccurrenceOrder(ListsViewPaths(lists), Dedup(ListsViewPaths(lists)))
    ensures forall x :: x in Dedup(ListsViewPaths(lists)) <==>
      exists i, j :: 0 <= i < |lists| && 0 <= j < |lists[i].fields| &&
        x in FieldViewPaths(lists[i].fields[j])
  {
    DedupDistinct(ListsViewPaths(lists));
    DedupFirstInsertionOrder(ListsViewPaths(lists));
    DedupSameElements(ListsViewPaths(lists));
    forall x ensures x in Dedup(ListsViewPaths(lists)) <==>
      exists i, j :: 0 <= i < |lists| && 0 <= j < |lists[i].fields| &&
        x in FieldViewPaths(lists[i].fields[j])
    {
      ListsViewPathsMembers(lists, x);
    }
  }
}
