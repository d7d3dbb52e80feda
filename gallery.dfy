/**
 * The gallery section: which rows each viewer is sent (newest first), which controls a
 * tile offers, what a moderation or delete action writes, and how the detail view
 * chooses between video and image. The table is a sequence of rows; a query is a
 * function of it.
 */
module Gallery {
  import opened Wrappers
  import opened Schema
  import GalleryCard

  /** The statuses a viewer's query asks for: approved only, or approved and pending for admins. */
  predicate VisibleTo(status: Status, isAdmin: bool)
  {
    if isAdmin then status == Approved || status == Pending else status == Approved
  }

  /** Newest first by creation time. */
  predicate NewestFirstOrder(rows: seq<GalleryImage>)
  {
    forall i, j :: 0 <= i < j < |rows| ==> rows[i].createdAt >= rows[j].createdAt
  }

  /** Places `row` before the first row that is not newer than it. */
  function InsertByDate(row: GalleryImage, rows: seq<GalleryImage>): (r: seq<GalleryImage>)
    requires NewestFirstOrder(rows)
    ensures NewestFirstOrder(r)
    ensures |r| == |rows| + 1
    ensures r[0] == row || (rows != [] && r[0] == rows[0])
  {
    if rows == [] || row.createdAt >= rows[0].createdAt then [row] + rows
    else
      var rest := InsertByDate(row, rows[1..]);
      assert rest[0].createdAt <= rows[0].createdAt;
      [rows[0]] + rest
  }

  lemma {:induction false} InsertByDateKeepsRows(row: GalleryImage, rows: seq<GalleryImage>)
    requires NewestFirstOrder(rows)
    ensures multiset(InsertByDate(row, rows)) == multiset(rows) + multiset{row}
  {
    if rows == [] || row.createdAt >= rows[0].createdAt {
    } else {
      InsertByDateKeepsRows(row, rows[1..]);
      assert rows == [rows[0]] + rows[1..];
    }
  }

  /** `.order('created_at', { ascending: false })` */
  function NewestFirst(rows: seq<GalleryImage>): (r: seq<GalleryImage>)
    ensures NewestFirstOrder(r)
    ensures |r| == |rows|
  {
    if rows == [] then []
    else InsertByDate(rows[0], NewestFirst(rows[1..]))
  }

  /** Sorting keeps every row, with its multiplicity. */
  lemma {:induction false} NewestFirstKeepsRows(rows: seq<GalleryImage>)
    ensures multiset(NewestFirst(rows)) == multiset(rows)
  {
    if rows != [] {
      var tail := rows[1..];
      NewestFirstKeepsRows(tail);
      InsertByDateKeepsRows(rows[0], NewestFirst(tail));
      assert rows == [rows[0]] + tail;
      assert multiset(rows) == multiset(tail) + multiset{rows[0]};
    }
  }

  /** The status filter of the query (`eq` for viewers, `in` for admins), keeping row order. */
  function VisibleRows(rows: seq<GalleryImage>, isAdmin: bool): (r: seq<GalleryImage>)
    ensures forall x :: x in r ==> x in rows && VisibleTo(x.status, isAdmin)
  {
    if rows == [] then []
    else
      var rest := VisibleRows(rows[1..], isAdmin);
      (if VisibleTo(rows[0].status, isAdmin) then [rows[0]] else []) + rest
  }

  /** Filtering a newest-first list leaves it newest first. */
  lemma {:induction false} VisibleRowsKeepOrder(rows: seq<GalleryImage>, isAdmin: bool)
    requires NewestFirstOrder(rows)
    ensures NewestFirstOrder(VisibleRows(rows, isAdmin))
  {
    if rows != [] {
      var rest := VisibleRows(rows[1..], isAdmin);
      VisibleRowsKeepOrder(rows[1..], isAdmin);
      if VisibleTo(rows[0].status, isAdmin) {
        var r := [rows[0]] + rest;
        forall j | 0 < j < |r| ensures r[0].createdAt >= r[j].createdAt {
          assert r[j] in rest;
          var m :| 0 <= m < |rows[1..]| && rows[1..][m] == r[j];
          assert rows[1 + m] == r[j];
        }
      }
    }
  }

  /** The filter keeps each visible row as often as it occurs and drops the rest. */
  lemma {:induction false} VisibleRowsCount(rows: seq<GalleryImage>, isAdmin: bool, x: GalleryImage)
    ensures multiset(VisibleRows(rows, isAdmin))[x] == if VisibleTo(x.status, isAdmin) then multiset(rows)[x] else 0
  {
    if rows != [] {
      VisibleRowsCount(rows[1..], isAdmin, x);
      assert rows == [rows[0]] + rows[1..];
    }
  }

  /** The rows the gallery query returns to a viewer. */
  function GalleryQuery(table: seq<GalleryImage>, isAdmin: bool): seq<GalleryImage>
  {
    VisibleRows(NewestFirst(table), isAdmin)
  }

  /**
   * A viewer gets every approved row and nothing else; an admin gets every approved
   * or pending row, never a rejected one; either way newest first.
   */
  lemma GalleryQueryContents(table: seq<GalleryImage>, isAdmin: bool)
    ensures NewestFirstOrder(GalleryQuery(table, isAdmin))
    ensures forall x :: x in GalleryQuery(table, isAdmin) ==>
      x.status != Rejected && (!isAdmin ==> x.status == Approved)
    ensures forall x {:trigger multiset(table)[x]} :: (multiset(GalleryQuery(table, isAdmin))[x] ==
      if VisibleTo(x.status, isAdmin) then multiset(table)[x] else 0)
  {
    NewestFirstKeepsRows(table);
    VisibleRowsKeepOrder(NewestFirst(table), isAdmin);
    forall x ensures multiset(GalleryQuery(table, isAdmin))[x] ==
      if VisibleTo(x.status, isAdmin) then multiset(table)[x] else 0
    {
      VisibleRowsCount(NewestFirst(table), isAdmin, x);
    }
  }

  /** Clicking a tile opens the detail view only for an approved row. */
  function OnTileClick(item: GalleryImage, selected: Option<GalleryImage>): (r: Option<GalleryImage>)
    ensures r == Some(item) <==> item.status == Approved || selected == Some(item)
    ensures item.status != Approved ==> r == selected
  {
    if item.status == Approved then Some(item) else selected
  }

  /** The controls a tile carries for a viewer. */
  datatype TileControls = TileControls(pendingBadge: bool, approveReject: bool, delete: bool)

  function Controls(status: Status, isAdmin: bool): (c: TileControls)
    ensures c.pendingBadge <==> status == Pending
    ensures c.approveReject <==> status == Pending && isAdmin
    ensures c.delete <==> status == Approved && isAdmin
  {
    TileControls(status == Pending, status == Pending && isAdmin, isAdmin && status == Approved)
  }

  /** Nobody but an admin sees a control, and no tile offers both moderation and deletion. */
  lemma ControlsExclusive(status: Status, isAdmin: bool)
    ensures !isAdmin ==> !Controls(status, isAdmin).approveReject && !Controls(status, isAdmin).delete
    ensures !(Controls(status, isAdmin).approveReject && Controls(status, isAdmin).delete)
    ensures status == Rejected ==> Controls(status, isAdmin) == TileControls(false, false, false)
  {
  }

  /** `update({ status }).eq('id', id)`: every row with that id gets the status; nothing else changes. */
  function ModerateRow(table: seq<GalleryImage>, id: string, status: Status): (r: seq<GalleryImage>)
    ensures |r| == |table|
    ensures forall i :: 0 <= i < |table| && table[i].id != id ==> r[i] == table[i]
    ensures forall i :: 0 <= i < |table| && table[i].id == id ==> r[i] == table[i].(status := status)
  {
    seq(|table|, i requires 0 <= i < |table| =>
      if table[i].id == id then table[i].(status := status) else table[i])
  }

  /** `delete().eq('id', id)` */
  function DeleteRow(table: seq<GalleryImage>, id: string): (r: seq<GalleryImage>)
    ensures forall x :: x in r <==> x in table && x.id != id
  {
    if table == [] then []
    else (if table[0].id == id then [] else [table[0]]) + DeleteRow(table[1..], id)
  }

  /** A row is listed exactly when it is in the table and its status is visible to the viewer. */
  lemma GalleryQueryMembership(table: seq<GalleryImage>, isAdmin: bool, x: GalleryImage)
    ensures x in GalleryQuery(table, isAdmin) <==> x in table && VisibleTo(x.status, isAdmin)
  {
    NewestFirstKeepsRows(table);
    VisibleRowsCount(NewestFirst(table), isAdmin, x);
    assert x in GalleryQuery(table, isAdmin) <==> multiset(GalleryQuery(table, isAdmin))[x] > 0;
    assert x in table <==> multiset(table)[x] > 0;
  }

  /** After an approval the row is listed for every viewer. */
  lemma ApprovalListsRow(table: seq<GalleryImage>, i: nat, isAdmin: bool)
    requires i < |table|
    ensures table[i].(status := Approved) in GalleryQuery(ModerateRow(table, table[i].id, Approved), isAdmin)
  {
    var approved := ModerateRow(table, table[i].id, Approved);
    assert approved[i] in approved;
    GalleryQueryMembership(approved, isAdmin, approved[i]);
  }

  /** After a rejection no row with that id is listed for anybody, admins included. */
  lemma RejectionUnlistsRow(table: seq<GalleryImage>, i: nat, isAdmin: bool)
    requires i < |table|
    ensures forall x :: x in GalleryQuery(ModerateRow(table, table[i].id, Rejected), isAdmin) ==> x.id != table[i].id
  {
    var id := table[i].id;
    var rejected := ModerateRow(table, id, Rejected);
    forall x | x in GalleryQuery(rejected, isAdmin) ensures x.id != id {
      GalleryQueryMembership(rejected, isAdmin, x);
      var j :| 0 <= j < |rejected| && rejected[j] == x;
    }
  }

  /** The section body: a spinner while loading, the grid when rows came back, otherwise the empty notice. */
  datatype SectionBody = Spinner | EmptyNotice | Grid(tiles: seq<GalleryImage>)

  function Body(isLoading: bool, data: Option<seq<GalleryImage>>): (b: SectionBody)
    ensures b.Spinner? <==> isLoading
    ensures b.Grid? <==> !isLoading && data.Some? && |data.value| > 0
    ensures b.Grid? ==> b.tiles == data.value
    ensures b.EmptyNotice? <==> !isLoading && (data.None? || data.value == [])
  {
    if isLoading then Spinner
    else if data.Some? && |data.value| > 0 then Grid(data.value)
    else EmptyNotice
  }

  /** The detail dialog: title, the description when there is one, and the full-size media. */
  function DetailView(item: GalleryImage): (v: GalleryCard.CardView)
    ensures v.heading == item.title
    ensures v.caption.Some? <==> Present(item.description)
    ensures v.caption.Some? ==> v.caption == item.description
    ensures v.media.src == item.imageUrl
    ensures v.media.VideoElement? <==> GalleryCard.IsVideo(item.imageUrl)
    ensures v.media.ImageElement? ==> v.media.alt == item.title
  {
    var caption := if item.description.Some? && item.description.value != "" then item.description else None;
    if GalleryCard.IsVideo(item.imageUrl) then
      GalleryCard.CardView(GalleryCard.VideoElement(item.imageUrl), item.title, caption)
    else
      GalleryCard.CardView(GalleryCard.ImageElement(item.imageUrl, item.title), item.title, caption)
  }

  /** The dialog shows exactly what the tile shows: same media choice, heading and caption. */
  lemma DetailAgreesWithTile(item: GalleryImage)
    ensures DetailView(item) == GalleryCard.RenderCard(item.imageUrl, item.title, item.description)
  {
  }
}
