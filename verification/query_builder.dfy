/** `queryBuilder`, common to the three Solr clients: a `Query` becomes a Solr request.
    The clients differ only in how plain values are written (`ValueStyle`) and in where
    `start`/`rows` live (`Window`), so both are parameters here. */
module QueryBuilder {
  import opened Wrappers
  import opened JavaInt
  import opened JavaString
  import opened QueryModel
  import opened FilterClauses

  const ResultTypeFilter: string := "resulttypename:publication"
  const NotDeletedFilter: string := "deletedbyinference:false"

  /** Appended after every caller-derived filter, in this order. */
  const MandatoryFilters: seq<string> := [ResultTypeFilter, NotDeletedFilter]

  // ---------------------------------------------------------------------
  // start / rows
  // ---------------------------------------------------------------------

  /** The `start`/`rows` pair a translation uses; in two clients these are instance
      fields, so the pair one call leaves behind is where the next call starts. */
  datatype Window = Window(start: Int32, rows: Int32)

  const InitialWindow: Window := Window(0, 10)

  /** `from` replaces `start` only when positive; `to - start` (Java `int` arithmetic)
      replaces `rows` only when `to` is positive. */
  function NextWindow(w: Window, q: Query): (w': Window)
    ensures w.start >= 0 ==> w'.start >= 0
    ensures w.start >= 0 && q.to > 0 ==> w'.rows == q.to - w'.start
    ensures q.from <= 0 && q.to <= 0 ==> w' == w
    ensures q.from > 0 ==> w'.start == q.from
    ensures q.from <= 0 ==> w'.start == w.start
    ensures q.to <= 0 ==> w'.rows == w.rows
  {
    var start := if q.from > 0 then q.from else w.start;
    var rows := if q.to > 0 then Wrap32(q.to - start) else w.rows;
    Window(start, rows)
  }

  // ---------------------------------------------------------------------
  // sort
  // ---------------------------------------------------------------------

  /** `SolrQuery.ORDER.valueOf`: exact, case-sensitive constant names. */
  function DirectionOf(token: string): Option<SortOrder> {
    if token == "asc" then Some(Asc) else if token == "desc" then Some(Desc) else None
  }

  /** The effect of one value of the `sort` parameter, split on single spaces: two tokens
      name a field and a direction, one token a field sorted descending, any other count
      nothing (`None`). */
  function SortOfValue(v: string): Result<Option<SortClause>, TranslationError> {
    var tokens := SplitOnSpace(v);
    if |tokens| == 2 then
      match DirectionOf(tokens[1])
      case Some(o) => Success(Some(SortClause(tokens[0], o)))
      case None => Failure(InvalidSortDirection(tokens[1]))
    else if |tokens| == 1 then Success(Some(SortClause(tokens[0], Desc)))
    else Success(None)
  }

  /** A value fails only with two tokens whose second is no direction; a sort it names is
      on its first token, a single word; it names none for any other token count. */
  lemma SortOfValueMeaning(v: string)
    ensures var r := SortOfValue(v);
      && (r.Failure? ==>
           && |SplitOnSpace(v)| == 2
           && r.error == InvalidSortDirection(SplitOnSpace(v)[1])
           && SplitOnSpace(v)[1] != "asc" && SplitOnSpace(v)[1] != "desc")
      && (r.Success? && r.value.Some? ==>
           |SplitOnSpace(v)| > 0 && r.value.value.field == SplitOnSpace(v)[0] && NoSpace(r.value.value.field))
      && (r == Success(None) <==> |SplitOnSpace(v)| != 1 && |SplitOnSpace(v)| != 2)
  {
    SplitTokensHaveNoSpace(v);
  }

  predicate SortValueAccepted(v: string) {
    SortOfValue(v).Success?
  }

  /** `setSort` replaces the current sort whenever a value names one. */
  function Override(cur: Option<SortClause>, later: Option<SortClause>): Option<SortClause> {
    if later.Some? then later else cur
  }

  /** The loop over the values of `sort`, stopping at the first invalid direction. */
  function ApplySort(cur: Option<SortClause>, vals: seq<string>): Result<Option<SortClause>, TranslationError>
    decreases |vals|
  {
    if |vals| == 0 then Success(cur)
    else
      match SortOfValue(vals[0])
      case Failure(e) => Failure(e)
      case Success(s) => ApplySort(Override(cur, s), vals[1..])
  }

  /** The sort a single value names, if it names one and is accepted. */
  function SortNamedBy(v: string): Option<SortClause> {
    match SortOfValue(v)
    case Success(s) => s
    case Failure(_) => None
  }

  /** Reference: the sort named by the last value that names one, scanning from the right. */
  function LastSort(vals: seq<string>): Option<SortClause>
    decreases |vals|
  {
    if |vals| == 0 then None
    else Override(LastSort(vals[..|vals| - 1]), SortNamedBy(vals[|vals| - 1]))
  }

  lemma {:induction false} ApplySortAppend(cur: Option<SortClause>, a: seq<string>, b: seq<string>)
    ensures ApplySort(cur, a + b) ==
      match ApplySort(cur, a)
      case Failure(e) => Failure(e)
      case Success(c) => ApplySort(c, b)
    decreases |a|
  {
    if |a| > 0 {
      assert (a + b)[0] == a[0];
      assert (a + b)[1..] == a[1..] + b;
      match SortOfValue(a[0])
      case Failure(e) =>
      case Success(s) => ApplySortAppend(Override(cur, s), a[1..], b);
    } else {
      assert a + b == b;
    }
  }

  /** The sort loop succeeds exactly when every value is accepted, and then the value
      that wins is the last one naming a sort (the earlier sort survives when none does). */
  lemma ApplySortLastWins(cur: Option<SortClause>, vals: seq<string>)
    ensures ApplySort(cur, vals).Success? <==> forall i :: 0 <= i < |vals| ==> SortValueAccepted(vals[i])
    ensures ApplySort(cur, vals).Success? ==> ApplySort(cur, vals).value == Override(cur, LastSort(vals))
  {
    ApplySortAccepts(cur, vals);
    ApplySortWinner(cur, vals);
  }

  /** Acceptance, by induction from the front, as the loop runs. */
  lemma {:induction false} ApplySortAccepts(cur: Option<SortClause>, vals: seq<string>)
    ensures ApplySort(cur, vals).Success? <==> forall i :: 0 <= i < |vals| ==> SortValueAccepted(vals[i])
    decreases |vals|
  {
    if |vals| > 0 {
      match SortOfValue(vals[0])
      case Failure(e) =>
        assert !SortValueAccepted(vals[0]);
      case Success(o) =>
        ApplySortAccepts(Override(cur, o), vals[1..]);
        assert forall i :: 1 <= i < |vals| ==> vals[i] == vals[1..][i - 1];
    }
  }

  /** The winning sort, by induction from the back, as `LastSort` scans. */
  lemma {:induction false} ApplySortWinner(cur: Option<SortClause>, vals: seq<string>)
    ensures ApplySort(cur, vals).Success? ==> ApplySort(cur, vals).value == Override(cur, LastSort(vals))
    decreases |vals|
  {
    if |vals| > 0 {
      var init := vals[..|vals| - 1];
      var last := vals[|vals| - 1];
      assert vals == init + [last];
      ApplySortAppend(cur, init, [last]);
      match ApplySort(cur, init)
      case Failure(e) =>
      case Success(c) =>
        ApplySortWinner(cur, init);
        ApplySortSingle(c, last);
        LastSortSnoc(vals, SortNamedBy(last));
        OverrideAssoc(cur, LastSort(init), SortNamedBy(last));
    }
  }

  /** The loop over a single value. */
  lemma ApplySortSingle(cur: Option<SortClause>, v: string)
    ensures ApplySort(cur, [v]).Success? <==> SortValueAccepted(v)
    ensures ApplySort(cur, [v]).Success? ==> ApplySort(cur, [v]).value == Override(cur, SortNamedBy(v))
  {
    assert [v][1..] == [];
  }

  lemma OverrideAssoc(a: Option<SortClause>, b: Option<SortClause>, c: Option<SortClause>)
    ensures Override(Override(a, b), c) == Override(a, Override(b, c))
  {
  }

  lemma {:induction false} LastSortAppend(a: seq<string>, b: seq<string>)
    ensures LastSort(a + b) == Override(LastSort(a), LastSort(b))
    decreases |b|
  {
    if |b| == 0 {
      assert a + b == a;
    } else {
      var ab := a + b;
      var binit := b[..|b| - 1];
      var z := SortNamedBy(b[|b| - 1]);
      assert ab[|ab| - 1] == b[|b| - 1];
      assert ab[..|ab| - 1] == a + binit;
      LastSortAppend(a, binit);
      LastSortSnoc(ab, z);
      LastSortSnoc(b, z);
    }
  }

  lemma LastSortSnoc(vals: seq<string>, z: Option<SortClause>)
    requires |vals| > 0 && z == SortNamedBy(vals[|vals| - 1])
    ensures LastSort(vals) == Override(LastSort(vals[..|vals| - 1]), z)
  {
  }

  /** A value without spaces sorts on that field, descending. */
  lemma SortSingleToken(f: string)
    requires NoSpace(f)
    ensures SortOfValue(f) == Success(Some(SortClause(f, Desc)))
  {
  }

  /** `"field dir"` sorts on the field in that direction when `dir` is exactly `asc` or
      `desc`, and throws for any other word (`ASC` included). */
  lemma SortFieldAndDirection(f: string, d: string)
    requires NoSpace(f) && NoSpace(d) && d != ""
    ensures d == "asc" ==> SortOfValue(f + " " + d) == Success(Some(SortClause(f, Asc)))
    ensures d == "desc" ==> SortOfValue(f + " " + d) == Success(Some(SortClause(f, Desc)))
    ensures d != "asc" && d != "desc" ==> SortOfValue(f + " " + d) == Failure(InvalidSortDirection(d))
  {
    SplitFieldAndDirection(f, d);
  }

  // ---------------------------------------------------------------------
  // the parameter map
  // ---------------------------------------------------------------------

  predicate IsSortKey(key: string) {
    EqualsIgnoreCase(key, "sort")
  }

  predicate IsFieldListKey(key: string) {
    EqualsIgnoreCase(key, "fl")
  }

  predicate IsFilterKey(key: string) {
    !IsSortKey(key) && !IsFieldListKey(key)
  }

  /** `Map.get`: the list stored under exactly this key, null when there is none. */
  function Lookup(ps: Params, key: string): Option<seq<string>>
    decreases |ps|
  {
    if |ps| == 0 then None
    else if ps[0].0 == key then Some(ps[0].1)
    else Lookup(ps[1..], key)
  }

  /** What the loop has built so far. */
  datatype Partial = Partial(sort: Option<SortClause>, fields: seq<string>, filters: seq<string>)

  const EmptyPartial: Partial := Partial(None, [], [])

  /** One iteration of the loop over the keys. The reserved keys are recognised ignoring
      case but their values are read under the literal lower-case key. */
  function ApplyEntry(acc: Partial, key: string, vals: seq<string>, ps: Params, cal: Calendar, style: ValueStyle)
    : Result<Partial, TranslationError>
  {
    if IsSortKey(key) then
      match Lookup(ps, "sort")
      case None => Failure(NullParamList("sort"))
      case Some(sortVals) =>
        match ApplySort(acc.sort, sortVals)
        case Failure(e) => Failure(e)
        case Success(s) => Success(acc.(sort := s))
    else if IsFieldListKey(key) then
      match Lookup(ps, "fl")
      case None => Failure(NullParamList("fl"))
      case Some(fl) => Success(acc.(fields := acc.fields + fl))
    else
      Success(acc.(filters := acc.filters + [FilterClause(key, vals, cal, style)]))
  }

  function ApplyParams(acc: Partial, entries: Params, ps: Params, cal: Calendar, style: ValueStyle)
    : Result<Partial, TranslationError>
    decreases |entries|
  {
    if |entries| == 0 then Success(acc)
    else
      match ApplyEntry(acc, entries[0].0, entries[0].1, ps, cal, style)
      case Failure(e) => Failure(e)
      case Success(a) => ApplyParams(a, entries[1..], ps, cal, style)
  }

  /** One key is accepted exactly when its values are, and only appends: a filter key adds
      exactly one clause and nothing else, `fl` and `sort` leave the filters alone and
      each other's part too. */
  lemma ApplyEntryMeaning(acc: Partial, key: string, vals: seq<string>, ps: Params, cal: Calendar, style: ValueStyle)
    ensures var r := ApplyEntry(acc, key, vals, ps, cal, style);
      && (r.Success? <==> EntryAccepted(key, ps))
      && (r.Success? ==> acc.filters <= r.value.filters && acc.fields <= r.value.fields)
      && (r.Success? && IsFilterKey(key) ==>
           r.value.sort == acc.sort && r.value.fields == acc.fields && |r.value.filters| == |acc.filters| + 1)
      && (r.Success? && !IsFilterKey(key) ==> r.value.filters == acc.filters)
      && (r.Success? && IsFieldListKey(key) ==> r.value.sort == acc.sort)
      && (r.Success? && IsSortKey(key) ==> r.value.fields == acc.fields)
  {
    if IsSortKey(key) && Lookup(ps, "sort").Some? {
      ApplySortLastWins(acc.sort, Lookup(ps, "sort").value);
    }
  }

  /** A key the loop gets past without throwing. */
  predicate EntryAccepted(key: string, ps: Params) {
    && (IsSortKey(key) ==>
          Lookup(ps, "sort").Some? &&
          forall i :: 0 <= i < |Lookup(ps, "sort").value| ==> SortValueAccepted(Lookup(ps, "sort").value[i]))
    && (IsFieldListKey(key) ==> Lookup(ps, "fl").Some?)
  }

  /** Reference: one clause per non-reserved key, in key order. */
  function ClausesOf(entries: Params, cal: Calendar, style: ValueStyle): seq<string>
    decreases |entries|
  {
    if |entries| == 0 then []
    else
      (if IsFilterKey(entries[0].0) then [FilterClause(entries[0].0, entries[0].1, cal, style)] else [])
      + ClausesOf(entries[1..], cal, style)
  }

  /** Reference: the values read for every `fl`-like key, in key order. */
  function FieldListValues(entries: Params, ps: Params): seq<string>
    decreases |entries|
  {
    if |entries| == 0 then []
    else
      (if IsFieldListKey(entries[0].0) && Lookup(ps, "fl").Some? then Lookup(ps, "fl").value else [])
      + FieldListValues(entries[1..], ps)
  }

  /** Reference: the values read for every `sort`-like key, in key order. */
  function SortValues(entries: Params, ps: Params): seq<string>
    decreases |entries|
  {
    if |entries| == 0 then []
    else
      (if IsSortKey(entries[0].0) && Lookup(ps, "sort").Some? then Lookup(ps, "sort").value else [])
      + SortValues(entries[1..], ps)
  }

  lemma {:induction false} ApplyParamsAccepted(acc: Partial, entries: Params, ps: Params, cal: Calendar, style: ValueStyle)
    ensures ApplyParams(acc, entries, ps, cal, style).Success? <==>
      forall i :: 0 <= i < |entries| ==> EntryAccepted(entries[i].0, ps)
    decreases |entries|
  {
    if |entries| > 0 {
      var key := entries[0].0;
      if IsSortKey(key) && Lookup(ps, "sort").Some? {
        ApplySortLastWins(acc.sort, Lookup(ps, "sort").value);
      }
      match ApplyEntry(acc, key, entries[0].1, ps, cal, style)
      case Failure(e) =>
        assert !EntryAccepted(key, ps);
      case Success(a) =>
        assert EntryAccepted(key, ps);
        ApplyParamsAccepted(a, entries[1..], ps, cal, style);
        assert forall i :: 1 <= i < |entries| ==> entries[i] == entries[1..][i - 1];
    }
  }

  lemma {:induction false} ApplyParamsFilters(acc: Partial, entries: Params, ps: Params, cal: Calendar, style: ValueStyle)
    requires ApplyParams(acc, entries, ps, cal, style).Success?
    ensures ApplyParams(acc, entries, ps, cal, style).value.filters == acc.filters + ClausesOf(entries, cal, style)
    decreases |entries|
  {
    if |entries| > 0 {
      ApplyParamsStep(acc, entries, ps, cal, style);
      var a := ApplyEntry(acc, entries[0].0, entries[0].1, ps, cal, style).value;
      ApplyParamsFilters(a, entries[1..], ps, cal, style);
      var head := if IsFilterKey(entries[0].0) then [FilterClause(entries[0].0, entries[0].1, cal, style)] else [];
      assert a.filters == acc.filters + head;
      AppendAssoc(acc.filters, head, ClausesOf(entries[1..], cal, style));
    }
  }

  lemma {:induction false} ApplyParamsFields(acc: Partial, entries: Params, ps: Params, cal: Calendar, style: ValueStyle)
    requires ApplyParams(acc, entries, ps, cal, style).Success?
    ensures ApplyParams(acc, entries, ps, cal, style).value.fields == acc.fields + FieldListValues(entries, ps)
    decreases |entries|
  {
    if |entries| > 0 {
      ApplyParamsStep(acc, entries, ps, cal, style);
      var key := entries[0].0;
      var a := ApplyEntry(acc, key, entries[0].1, ps, cal, style).value;
      ApplyParamsFields(a, entries[1..], ps, cal, style);
      var head := if IsFieldListKey(key) && Lookup(ps, "fl").Some? then Lookup(ps, "fl").value else [];
      assert !(IsSortKey(key) && IsFieldListKey(key));
      assert a.fields == acc.fields + head;
      AppendAssoc(acc.fields, head, FieldListValues(entries[1..], ps));
    }
  }

  /** A loop that completes completed its first iteration and then the rest. */
  lemma ApplyParamsStep(acc: Partial, entries: Params, ps: Params, cal: Calendar, style: ValueStyle)
    requires |entries| > 0 && ApplyParams(acc, entries, ps, cal, style).Success?
    ensures ApplyEntry(acc, entries[0].0, entries[0].1, ps, cal, style).Success?
    ensures ApplyParams(acc, entries, ps, cal, style) ==
      ApplyParams(ApplyEntry(acc, entries[0].0, entries[0].1, ps, cal, style).value, entries[1..], ps, cal, style)
  {
  }

  lemma AppendAssoc(a: seq<string>, b: seq<string>, c: seq<string>)
    ensures (a + b) + c == a + (b + c)
  {
  }

  lemma {:induction false} ApplyParamsSort(acc: Partial, entries: Params, ps: Params, cal: Calendar, style: ValueStyle)
    requires ApplyParams(acc, entries, ps, cal, style).Success?
    ensures ApplyParams(acc, entries, ps, cal, style).value.sort == Override(acc.sort, LastSort(SortValues(entries, ps)))
    decreases |entries|
  {
    if |entries| == 0 {
      assert SortValues(entries, ps) == [];
    } else {
      var key := entries[0].0;
      var a := ApplyEntry(acc, key, entries[0].1, ps, cal, style).value;
      ApplyParamsSort(a, entries[1..], ps, cal, style);
      var rest := SortValues(entries[1..], ps);
      if IsSortKey(key) {
        var vs := Lookup(ps, "sort").value;
        ApplySortLastWins(acc.sort, vs);
        assert a.sort == Override(acc.sort, LastSort(vs));
        LastSortAppend(vs, rest);
        assert SortValues(entries, ps) == vs + rest;
      } else {
        assert a.sort == acc.sort;
        assert SortValues(entries, ps) == [] + rest;
        assert [] + rest == rest;
      }
    }
  }

  lemma OptionalParamsAccepted(params: Option<Params>, cal: Calendar, style: ValueStyle)
    ensures params.Some? ==>
      (ApplyParams(EmptyPartial, params.value, params.value, cal, style).Success? <==>
       forall i :: 0 <= i < |params.value| ==> EntryAccepted(params.value[i].0, params.value))
  {
    if params.Some? {
      ApplyParamsAccepted(EmptyPartial, params.value, params.value, cal, style);
    }
  }

  // ---------------------------------------------------------------------
  // queryBuilder
  // ---------------------------------------------------------------------

  /** The window the call leaves behind (updated even when the call then throws) and
      the request, or the exception. */
  datatype Translation = Translation(window: Window, result: Result<Translated, TranslationError>)

  function BuildQuery(w: Window, q: Query, cal: Calendar, style: ValueStyle): (t: Translation)
    ensures t.window == NextWindow(w, q)
    ensures t.result.Success? <==>
      q.params.None? || forall i :: 0 <= i < |q.params.value| ==> EntryAccepted(q.params.value[i].0, q.params.value)
    ensures t.result.Success? ==>
      var r := t.result.value;
      && r.start == t.window.start && r.rows == t.window.rows
      && r.facet == q.facets.Some?
      && r.facetFields == (if q.facets.Some? then q.facets.value else [])
      && r.q == q.keyword
      && |r.filters| >= |MandatoryFilters|
      && r.filters[|r.filters| - |MandatoryFilters|..] == MandatoryFilters
    ensures q.params.None? ==>
      t.result.Success? && t.result.value.filters == MandatoryFilters &&
      t.result.value.sort == None && t.result.value.fields == []
  {
    var w' := NextWindow(w, q);
    var facetFields := if q.facets.Some? && |q.facets.value| > 0 then q.facets.value else [];
    var applied :=
      if q.params.Some? then ApplyParams(EmptyPartial, q.params.value, q.params.value, cal, style)
      else Success(EmptyPartial);
    OptionalParamsAccepted(q.params, cal, style);
    match applied
    case Failure(e) => Translation(w', Failure(e))
    case Success(p) =>
      var filters := p.filters + MandatoryFilters;
      assert filters[|filters| - |MandatoryFilters|..] == MandatoryFilters;
      Translation(w', Success(Translated(w'.start, w'.rows, q.facets.Some?, facetFields, p.sort, p.fields, filters, q.keyword)))
  }

  /** With a parameter map, the filters are one clause per key other than `sort`/`fl`, in
      key order, then the mandatory pair; the projection is every `fl` value; the sort is
      the last value of `sort` that names one. */
  lemma BuildQueryParams(w: Window, q: Query, cal: Calendar, style: ValueStyle)
    requires q.params.Some?
    requires BuildQuery(w, q, cal, style).result.Success?
    ensures var r := BuildQuery(w, q, cal, style).result.value;
      && r.filters == ClausesOf(q.params.value, cal, style) + MandatoryFilters
      && r.fields == FieldListValues(q.params.value, q.params.value)
      && r.sort == LastSort(SortValues(q.params.value, q.params.value))
  {
    var ps := q.params.value;
    BuildQueryApplies(w, q, cal, style);
    var p := ApplyParams(EmptyPartial, ps, ps, cal, style).value;
    assert p.filters == ClausesOf(ps, cal, style) by {
      ApplyParamsFilters(EmptyPartial, ps, ps, cal, style);
      assert [] + ClausesOf(ps, cal, style) == ClausesOf(ps, cal, style);
    }
    assert p.fields == FieldListValues(ps, ps) by {
      ApplyParamsFields(EmptyPartial, ps, ps, cal, style);
      assert [] + FieldListValues(ps, ps) == FieldListValues(ps, ps);
    }
    assert p.sort == LastSort(SortValues(ps, ps)) by {
      ApplyParamsSort(EmptyPartial, ps, ps, cal, style);
    }
  }

  /** The request carries what the loop over the parameter map built. */
  lemma BuildQueryApplies(w: Window, q: Query, cal: Calendar, style: ValueStyle)
    requires q.params.Some?
    requires BuildQuery(w, q, cal, style).result.Success?
    ensures var p := ApplyParams(EmptyPartial, q.params.value, q.params.value, cal, style);
      var r := BuildQuery(w, q, cal, style).result.value;
      && p.Success?
      && r.filters == p.value.filters + MandatoryFilters
      && r.fields == p.value.fields
      && r.sort == p.value.sort
  {
  }
}
