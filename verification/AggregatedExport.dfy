/** The aggregated export: its rows are those of an aggregate request, one per group, its
    order is the sort that the request resolves to. Models buildAggregatedExportQuery of
    src/export/build-export-query.ts. */
module AggregatedExport {
  import opened Wrappers
  import opened SqlValues
  import opened AfterCursor
  import opened SortedRows
  import opened ExportPages
  import A = AggregateQuery
  import FilterTree
  import Like

  /** The resolved sort, as the key of the resume cursor. */
  function ResumeOrder(sort: seq<A.Sort>): (order: seq<SortItem>)
    ensures |order| == |sort|
    ensures forall i | 0 <= i < |sort| ::
              order[i].field == sort[i].column && (order[i].order == ASC <==> sort[i].order == A.Asc)
  {
    seq(|sort|, i requires 0 <= i < |sort| => SortItem(sort[i].column, if sort[i].order.Asc? then ASC else DESC))
  }

  /** One row per group: two rows differ on a group column. */
  ghost predicate OnePerGroup(groups: seq<A.Group>, rows: seq<Row>) {
    forall i, j | 0 <= i < j < |rows| ::
      exists g :: g in groups && Column(rows[i], g.field) != Column(rows[j], g.field)
  }

  /** No two groups tie on the resolved sort. */
  lemma GroupsAreSeparated(ctx: A.Context, req: A.Request, rows: seq<Row>)
    requires A.Accepted(ctx, req) && OnePerGroup(A.Resolution(ctx, req).value.groups, rows)
    ensures UniqueKeys(ResumeOrder(A.Resolution(ctx, req).value.sort), rows)
  {
    var resolved := A.Resolution(ctx, req).value;
    var order := ResumeOrder(resolved.sort);
    A.SortSeparatesGroups(ctx, req);
    forall i, j | 0 <= i < j < |rows| ensures KeyOf(order, rows[i]) != KeyOf(order, rows[j]) {
      var g :| g in resolved.groups && Column(rows[i], g.field) != Column(rows[j], g.field);
      assert A.SortedBy(resolved.sort, g.field);
      var k :| 0 <= k < |resolved.sort| && resolved.sort[k].column == g.field;
      assert KeyOf(order, rows[i])[k] == Column(rows[i], g.field);
      assert KeyOf(order, rows[j])[k] == Column(rows[j], g.field);
    }
  }

  /** An aggregated export from the request to its last page: refused exactly when the
      request is; otherwise its pages put end to end are the rows, each once, sorted by the
      client's criteria first. */
  method ExportAggregated(ctx: A.Context, req: A.Request, filters: FilterTree.Context, eng: Engine, rows: seq<Row>, limit: nat)
    returns (pages: Option<seq<seq<Row>>>, order: seq<SortItem>)
    requires StrictOrder(eng.less) && Like.FoldsLetters(eng.fold) && limit >= 1
    requires A.Accepted(ctx, req) ==> OnePerGroup(A.Resolution(ctx, req).value.groups, rows)
    ensures pages.Some? <==> A.Accepted(ctx, req)
    ensures pages.Some? ==> ResumeOrder(A.ClientSort(req.sort)) <= order
    ensures pages.Some? ==> Concat(pages.value) == Sorted(RowOrder(eng, order), rows)
    ensures pages.Some? ==> Increasing(RowOrder(eng, order), Concat(pages.value))
    ensures pages.Some? ==> multiset(Concat(pages.value)) == multiset(rows)
  {
    var resolved := A.ResolveAggregateParams(ctx, req);
    if resolved.BadInput? {
      return None, [];
    }
    order := ResumeOrder(resolved.value.sort);
    GroupsAreSeparated(ctx, req, rows);
    A.ClientSortDistinct(req.sort);
    A.TieBreakMeaning(A.ClientSort(req.sort), resolved.value.groups);
    var x := Export(eng, order, rows, row => true, limit);
    var r := FollowCursors(filters, None, x);
    ExportIsWholeTable(x);
    SelectAll(rows, x.keep);
    return Some(r.value), order;
  }
}
