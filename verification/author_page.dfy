/** The Authors page: a list of authors seeded with five samples on an empty
    first load, a "new author" form, an edit draft and a per-id details
    toggle. Unlike the Publishers page it validates nothing before sending. */
module AuthorPage {
  import opened Values
  import opened Library
  import Listing
  import Seeding

  /** The "new author" form. */
  datatype AuthorForm = AuthorForm(name: Value, birthDate: Value, country: Value)

  const EmptyForm := AuthorForm(Str(""), Str(""), Str(""))

  /** Created, in this order, when the first list comes back empty. */
  const SampleAuthors: seq<AuthorForm> := [
    AuthorForm(Str("J.K. Rowling"), Str("1965-07-31"), Str("United Kingdom")),
    AuthorForm(Str("George R.R. Martin"), Str("1948-09-20"), Str("United States")),
    AuthorForm(Str("Agatha Christie"), Str("1890-09-15"), Str("United Kingdom")),
    AuthorForm(Str("Haruki Murakami"), Str("1949-01-12"), Str("Japan")),
    AuthorForm(Str("Gabriel García Márquez"), Str("1927-03-06"), Str("Colombia"))
  ]

  /** The requests this page sends to the authors resource. */
  datatype Call = List | Create(draft: AuthorForm) | Update(id: int, body: Author) | Delete(id: int)

  datatype Page = Page(
    authors: seq<Author>,
    newAuthor: AuthorForm,
    selected: Option<Author>,             // the edit draft; None hides the edit form
    visibleDetails: map<int, bool>)

  const Mounted := Page([], EmptyForm, None, map[])

  function Creates(ds: seq<AuthorForm>): seq<Call>
  {
    seq(|ds|, i requires 0 <= i < |ds| => Create(ds[i]))
  }

  /** The mount effect. `first` and `relist` answer the two list requests;
      `createReplies[i]` answers the create of the i-th sample. */
  method Load(p: Page, first: Reply<seq<Author>>, createReplies: seq<Reply<Author>>,
              relist: Reply<seq<Author>>)
    returns (r: Step<Page, Call>)
    requires |createReplies| == |SampleAuthors|
    ensures first.Err? ==> r == Step(p, [List], Silent)
    ensures first.Ok? && |first.value| > 0 ==> r == Step(p.(authors := first.value), [List], Silent)
    ensures first.Ok? && |first.value| == 0 && Seeding.LeadingOk(createReplies) == 5 ==>
              && r.calls == [List, Create(SampleAuthors[0]), Create(SampleAuthors[1]),
                             Create(SampleAuthors[2]), Create(SampleAuthors[3]),
                             Create(SampleAuthors[4]), List]
              && (relist.Ok? ==> r == Step(p.(authors := relist.value), r.calls, Silent))
              && (relist.Err? ==> r.page == p && r.notice == Silent)
    ensures first.Ok? && |first.value| == 0 && Seeding.LeadingOk(createReplies) < 5 ==>
              var k := Seeding.LeadingOk(createReplies);
              r == Step(p, [List] + Creates(SampleAuthors[..k + 1]), Silent)
  {
    var run := Seeding.FetchOrSeed(SampleAuthors, first, createReplies, relist);
    var calls := [List] + Creates(run.created) + (if run.relisted then [List] else []);
    var page := if run.items.Some? then p.(authors := run.items.value) else p;
    r := Step(page, calls, Silent);
  }

  function ToggleDetails(p: Page, id: int): (r: Page)
    ensures Listing.Visible(r.visibleDetails, id) == !Listing.Visible(p.visibleDetails, id)
    ensures forall k :: k != id ==> Listing.Visible(r.visibleDetails, k) == Listing.Visible(p.visibleDetails, k)
    ensures r == p.(visibleDetails := r.visibleDetails)
  {
    p.(visibleDetails := Listing.Toggle(p.visibleDetails, id))
  }

  /** The edit button: the row becomes the edit draft. */
  function SelectForEdit(p: Page, x: Author): Page
  {
    p.(selected := Some(x))
  }

  /** Sends the form as it stands, whatever its fields hold. */
  function AddAuthor(p: Page, reply: Reply<Author>): (r: Step<Page, Call>)
    ensures r.calls == [Create(p.newAuthor)]
    ensures reply.Ok? ==>
              && r.page == p.(authors := p.authors + [reply.value], newAuthor := EmptyForm)
              && r.notice == Success
    ensures reply.Err? ==> r.page == p && r.notice == Error(RequestFailed)
  {
    var calls := [Create(p.newAuthor)];
    match reply
    case Ok(added) => Step(p.(authors := p.authors + [added], newAuthor := EmptyForm), calls, Success)
    case Err => Step(p, calls, Error(RequestFailed))
  }

  /** Saves the edit draft; the list entry with the draft's id becomes the
      local draft. With no draft, reading its id throws inside the handler's
      try block, which shows the same error toast and sends nothing. */
  function UpdateAuthor(p: Page, reply: Reply<Author>): (r: Step<Page, Call>)
    ensures p.selected.None? ==> r == Step(p, [], Error(RequestFailed))
    ensures p.selected.Some? ==> r.calls == [Update(p.selected.value.id, p.selected.value)]
    ensures p.selected.Some? && reply.Ok? ==>
              var sel := p.selected.value;
              && |r.page.authors| == |p.authors|
              && (forall i :: 0 <= i < |p.authors| ==>
                    r.page.authors[i] == if p.authors[i].id == sel.id then sel else p.authors[i])
              && Listing.Keys(r.page.authors, AuthorId) == Listing.Keys(p.authors, AuthorId)
              && r.page == p.(authors := r.page.authors, selected := None)
              && r.notice == Success
    ensures p.selected.Some? && reply.Err? ==> r.page == p && r.notice == Error(RequestFailed)
  {
    match p.selected
    case None => Step(p, [], Error(RequestFailed))
    case Some(sel) =>
      var calls := [Update(sel.id, sel)];
      if reply.Ok? then
        Step(p.(authors := Listing.ReplaceWhere(p.authors, AuthorId, sel.id, sel), selected := None),
             calls, Success)
      else Step(p, calls, Error(RequestFailed))
  }

  /** `confirmed` is the answer to the confirmation prompt.
      The kept entries stay in their order (`Listing.RemoveConcat`); with
      distinct ids exactly one entry goes (`DeleteRemovesExactlyOne`). */
  function DeleteAuthor(p: Page, id: int, confirmed: bool, reply: Reply<()>): (r: Step<Page, Call>)
    ensures !confirmed ==> r == Step(p, [], Silent)
    ensures confirmed ==> r.calls == [Delete(id)]
    ensures confirmed && reply.Ok? ==>
              && (forall x :: x in r.page.authors ==> x in p.authors && x.id != id)
              && (forall x :: x in p.authors && x.id != id ==> x in r.page.authors)
              && r.page == p.(authors := r.page.authors)
              && r.notice == Success
    ensures confirmed && reply.Err? ==> r.page == p && r.notice == Error(RequestFailed)
  {
    if !confirmed then Step(p, [], Silent)
    else if reply.Ok? then
      Listing.RemoveMembers(p.authors, AuthorId, id);
      Step(p.(authors := Listing.RemoveWhere(p.authors, AuthorId, id)), [Delete(id)], Success)
    else Step(p, [Delete(id)], Error(RequestFailed))
  }

  /** Whatever body the server answers an update with, the page ends the same. */
  lemma UpdateIgnoresResponse(p: Page, a: Author, b: Author)
    ensures UpdateAuthor(p, Ok(a)) == UpdateAuthor(p, Ok(b))
  {
  }

  /** Deleting an author just added under a fresh id restores the list. */
  lemma AddThenDeleteRestores(p: Page, x: Author)
    requires !Listing.HasKey(p.authors, AuthorId, x.id)
    ensures DeleteAuthor(AddAuthor(p, Ok(x)).page, x.id, true, Ok(())).page.authors == p.authors
  {
    Listing.RemoveAppended(p.authors, AuthorId, x);
  }

  /** With unique ids, a confirmed delete of a listed author removes that
      one entry and keeps the others in order. */
  lemma DeleteRemovesExactlyOne(p: Page, i: int)
    requires Listing.UniqueKeys(p.authors, AuthorId)
    requires 0 <= i < |p.authors|
    ensures var after := DeleteAuthor(p, p.authors[i].id, true, Ok(())).page.authors;
            after == p.authors[..i] + p.authors[i + 1..] && |after| == |p.authors| - 1
  {
    Listing.RemoveUniquePresent(p.authors, AuthorId, i);
  }
}
