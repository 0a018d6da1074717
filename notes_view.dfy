/** The sidebar list (src/notesView.js, `NotesViewProvider`): what it is
    sent on each refresh. The handling of the messages it sends back is in
    the `Dispatch` module, since it drives the catalog. */
module ListView {
  import opened Text
  import opened Host
  import opened Items

  /** A title passes a filter when its lower-cased form contains the
      lower-cased filter. */
  predicate Matches(title: string, filterText: string) {
    Includes(ToLower(title), ToLower(filterText))
  }

  /** The rows whose title passes the filter, in their order. */
  function Filtered(rows: seq<Row>, filterText: string): (r: seq<Row>)
    ensures |r| <= |rows|
  {
    if rows == [] then []
    else (if Matches(rows[0].title, filterText) then [rows[0]] else [])
         + Filtered(rows[1..], filterText)
  }

  /** A row is kept exactly when it is in the list and passes the filter. */
  lemma {:induction false} FilteredMembers(rows: seq<Row>, filterText: string)
    ensures forall x :: x in Filtered(rows, filterText) <==> x in rows && Matches(x.title, filterText)
  {
    if rows != [] {
      FilteredMembers(rows[1..], filterText);
      assert rows == [rows[0]] + rows[1..];
    }
  }

  /** The projection `refresh` sends: every row for an empty filter,
      otherwise the rows whose title passes it. */
  function Visible(rows: seq<Row>, filterText: string): (r: seq<Row>)
    ensures filterText == "" ==> r == rows
    ensures |r| <= |rows|
  {
    if filterText == "" then rows else Filtered(rows, filterText)
  }

  /** For a non-empty filter, the rows shown are those passing it. */
  lemma VisibleMembers(rows: seq<Row>, filterText: string)
    requires filterText != ""
    ensures forall x :: x in Visible(rows, filterText) <==> x in rows && Matches(x.title, filterText)
  {
    FilteredMembers(rows, filterText);
  }

  /** Filtering keeps the order of the list: filtering two parts one after
      the other is filtering the whole. */
  lemma {:induction false} FilteredAppend(a: seq<Row>, b: seq<Row>, filterText: string)
    ensures Filtered(a + b, filterText) == Filtered(a, filterText) + Filtered(b, filterText)
  {
    if a == [] {
      assert a + b == b;
    } else {
      var head := if Matches(a[0].title, filterText) then [a[0]] else [];
      assert (a + b)[0] == a[0];
      assert (a + b)[1..] == a[1..] + b;
      assert Filtered(a + b, filterText) == head + Filtered(a[1..] + b, filterText);
      FilteredAppend(a[1..], b, filterText);
      assert head + (Filtered(a[1..], filterText) + Filtered(b, filterText))
             == (head + Filtered(a[1..], filterText)) + Filtered(b, filterText);
    }
  }

  /** The empty filter text is found in every title, so an empty filter and
      no filter show the same rows. */
  lemma EmptyFilterMatchesAll(rows: seq<Row>)
    ensures Filtered(rows, "") == Visible(rows, "")
  {
    if rows != [] {
      EmptyFilterMatchesAll(rows[1..]);
      assert Matches(rows[0].title, "");
    }
  }

  /** A row is shown for a non-empty filter exactly when the lower-cased
      filter occurs somewhere in its lower-cased title. */
  lemma VisibleIff(rows: seq<Row>, filterText: string, x: Row)
    requires filterText != ""
    ensures x in Visible(rows, filterText)
            <==> x in rows && exists i :: OccursAt(ToLower(x.title), ToLower(filterText), i)
  {
    VisibleMembers(rows, filterText);
    IncludesIff(ToLower(x.title), ToLower(filterText));
  }

  class NotesViewProvider {
    const host: Host
    /** `_view` is set. */
    var resolved: bool

    constructor (host: Host)
      ensures this.host == host && !resolved
    {
      this.host := host;
      resolved := false;
    }

    /** `refresh`: once the view exists it is sent the `{title, tags}` rows
        that pass the filter and the filter text; the notes are only read. */
    method Refresh(notes: seq<NoteItem>, filterText: string)
      modifies host`log
      ensures host.log == old(host.log)
                          + (if resolved then [ListUpdate(Visible(RowsOf(notes), filterText), filterText)] else [])
    {
      if resolved {
        host.Emit(ListUpdate(Visible(RowsOf(notes), filterText), filterText));
      }
    }

    /** `resolveWebviewView`: the view now exists and is refreshed. */
    method Resolve(notes: seq<NoteItem>, filterText: string)
      modifies this, host`log
      ensures resolved
      ensures host.log == old(host.log) + [ListUpdate(Visible(RowsOf(notes), filterText), filterText)]
    {
      resolved := true;
      Refresh(notes, filterText);
    }

    /** The view's visibility changed: it is refreshed when it shows. */
    method OnDidChangeVisibility(visible: bool, notes: seq<NoteItem>, filterText: string)
      modifies host`log
      ensures host.log == old(host.log)
                          + (if visible && resolved then [ListUpdate(Visible(RowsOf(notes), filterText), filterText)] else [])
    {
      if visible {
        Refresh(notes, filterText);
      }
    }
  }
}
