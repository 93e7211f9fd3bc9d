/** The Publishers page: a list of publishers seeded with five samples on an
    empty first load, a "new publisher" form, an edit draft, and a per-id
    details toggle. */
module PublisherPage {
  import opened Values
  import opened Library
  import Listing
  import Seeding

  /** The "new publisher" form. */
  datatype PublisherForm = PublisherForm(name: Value, establishmentYear: Value, address: Value)

  const EmptyForm := PublisherForm(Str(""), Str(""), Str(""))

  /** Created, in this order, when the first list comes back empty. */
  const SamplePublishers: seq<PublisherForm> := [
    PublisherForm(Str("Penguin Random House"), Num(1925), Str("New York, USA")),
    PublisherForm(Str("HarperCollins"), Num(1989), Str("New York, USA")),
    PublisherForm(Str("Macmillan Publishers"), Num(1843), Str("London, UK")),
    PublisherForm(Str("Hachette Livre"), Num(1826), Str("Paris, France")),
    PublisherForm(Str("Simon & Schuster"), Num(1924), Str("New York, USA"))
  ]

  /** The requests this page sends to the publishers resource. */
  datatype Call = List | Create(draft: PublisherForm) | Update(id: int, body: Publisher) | Delete(id: int)

  datatype Page = Page(
    publishers: seq<Publisher>,
    newPublisher: PublisherForm,
    selected: Option<Publisher>,          // the edit draft; None hides the edit form
    visibleDetails: map<int, bool>)

  const Mounted := Page([], EmptyForm, None, map[])

  /** No field of the form is empty, zero or null. */
  predicate FormFilled(f: PublisherForm)
    ensures FormFilled(f) <==> f.name !in Falsy && f.establishmentYear !in Falsy && f.address !in Falsy
  {
    Truthy(f.name) && Truthy(f.establishmentYear) && Truthy(f.address)
  }

  /** No field of the edit draft is empty, zero or null. */
  predicate DraftFilled(x: Publisher)
    ensures DraftFilled(x) <==> x.name !in Falsy && x.establishmentYear !in Falsy && x.address !in Falsy
  {
    Truthy(x.name) && Truthy(x.establishmentYear) && Truthy(x.address)
  }

  function Creates(ds: seq<PublisherForm>): seq<Call>
  {
    seq(|ds|, i requires 0 <= i < |ds| => Create(ds[i]))
  }

  /** The mount effect. `first` and `relist` answer the two list requests;
      `createReplies[i]` answers the create of the i-th sample. */
  method Load(p: Page, first: Reply<seq<Publisher>>, createReplies: seq<Reply<Publisher>>,
              relist: Reply<seq<Publisher>>)
    returns (r: Step<Page, Call>)
    requires |createReplies| == |SamplePublishers|
    ensures first.Err? ==> r == Step(p, [List], Silent)
    ensures first.Ok? && |first.value| > 0 ==> r == Step(p.(publishers := first.value), [List], Silent)
    ensures first.Ok? && |first.value| == 0 && Seeding.LeadingOk(createReplies) == 5 ==>
              && r.calls == [List, Create(SamplePublishers[0]), Create(SamplePublishers[1]),
                             Create(SamplePublishers[2]), Create(SamplePublishers[3]),
                             Create(SamplePublishers[4]), List]
              && (relist.Ok? ==> r == Step(p.(publishers := relist.value), r.calls, Info))
              && (relist.Err? ==> r.page == p && r.notice == Silent)
    ensures first.Ok? && |first.value| == 0 && Seeding.LeadingOk(createReplies) < 5 ==>
              var k := Seeding.LeadingOk(createReplies);
              r == Step(p, [List] + Creates(SamplePublishers[..k + 1]), Silent)
  {
    var run := Seeding.FetchOrSeed(SamplePublishers, first, createReplies, relist);
    var calls := [List] + Creates(run.created) + (if run.relisted then [List] else []);
    var page := if run.items.Some? then p.(publishers := run.items.value) else p;
    var notice := if run.relisted && run.items.Some? then Info else Silent;
    r := Step(page, calls, notice);
  }

  function ToggleDetails(p: Page, id: int): (r: Page)
    ensures Listing.Visible(r.visibleDetails, id) == !Listing.Visible(p.visibleDetails, id)
    ensures forall k :: k != id ==> Listing.Visible(r.visibleDetails, k) == Listing.Visible(p.visibleDetails, k)
    ensures r == p.(visibleDetails := r.visibleDetails)
  {
    p.(visibleDetails := Listing.Toggle(p.visibleDetails, id))
  }

  /** The edit button: the row becomes the edit draft. */
  function SelectForEdit(p: Page, x: Publisher): Page
  {
    p.(selected := Some(x))
  }

  function AddPublisher(p: Page, reply: Reply<Publisher>): (r: Step<Page, Call>)
    ensures !FormFilled(p.newPublisher) ==> r == Step(p, [], Warning(MissingFields))
    ensures FormFilled(p.newPublisher) ==> r.calls == [Create(p.newPublisher)]
    ensures FormFilled(p.newPublisher) && reply.Ok? ==>
              && r.page == p.(publishers := p.publishers + [reply.value], newPublisher := EmptyForm)
              && r.notice == Success
    ensures FormFilled(p.newPublisher) && reply.Err? ==> r.page == p && r.notice == Error(RequestFailed)
  {
    if !FormFilled(p.newPublisher) then Step(p, [], Warning(MissingFields))
    else
      var calls := [Create(p.newPublisher)];
      match reply
      case Ok(added) =>
        Step(p.(publishers := p.publishers + [added], newPublisher := EmptyForm), calls, Success)
      case Err => Step(p, calls, Error(RequestFailed))
  }

  /** Saves the edit draft. The list entry with the draft's id becomes the
      local draft itself; the server's response body is not read. */
  function UpdatePublisher(p: Page, reply: Reply<Publisher>): (r: Step<Page, Call>)
    ensures p.selected.None? ==> r == Step(p, [], Error(NothingSelected))
    ensures p.selected.Some? && !DraftFilled(p.selected.value) ==> r == Step(p, [], Warning(MissingFields))
    ensures p.selected.Some? && DraftFilled(p.selected.value) ==>
              r.calls == [Update(p.selected.value.id, p.selected.value)]
    ensures p.selected.Some? && DraftFilled(p.selected.value) && reply.Ok? ==>
              var sel := p.selected.value;
              && |r.page.publishers| == |p.publishers|
              && (forall i :: 0 <= i < |p.publishers| ==>
                    r.page.publishers[i] == if p.publishers[i].id == sel.id then sel else p.publishers[i])
              && Listing.Keys(r.page.publishers, PublisherId) == Listing.Keys(p.publishers, PublisherId)
              && r.page == p.(publishers := r.page.publishers, selected := None)
              && r.notice == Success
    ensures p.selected.Some? && DraftFilled(p.selected.value) && reply.Err? ==>
              r.page == p && r.notice == Error(RequestFailed)
  {
    match p.selected
    case None => Step(p, [], Error(NothingSelected))
    case Some(sel) =>
      if !DraftFilled(sel) then Step(p, [], Warning(MissingFields))
      else
        var calls := [Update(sel.id, sel)];
        if reply.Ok? then
          Step(p.(publishers := Listing.ReplaceWhere(p.publishers, PublisherId, sel.id, sel), selected := None),
               calls, Success)
        else Step(p, calls, Error(RequestFailed))
  }

  /** `confirmed` is the answer to the confirmation prompt.
      The kept entries stay in their order (`Listing.RemoveConcat`); with
      distinct ids exactly one entry goes (`DeleteRemovesExactlyOne`). */
  function DeletePublisher(p: Page, id: int, confirmed: bool, reply: Reply<()>): (r: Step<Page, Call>)
    ensures !confirmed ==> r == Step(p, [], Silent)
    ensures confirmed ==> r.calls == [Delete(id)]
    ensures confirmed && reply.Ok? ==>
              && (forall x :: x in r.page.publishers ==> x in p.publishers && x.id != id)
              && (forall x :: x in p.publishers && x.id != id ==> x in r.page.publishers)
              && r.page == p.(publishers := r.page.publishers)
              && r.notice == Success
    ensures confirmed && reply.Err? ==> r.page == p && r.notice == Error(RequestFailed)
  {
    if !confirmed then Step(p, [], Silent)
    else if reply.Ok? then
      Listing.RemoveMembers(p.publishers, PublisherId, id);
      Step(p.(publishers := Listing.RemoveWhere(p.publishers, PublisherId, id)), [Delete(id)], Success)
    else Step(p, [Delete(id)], Error(RequestFailed))
  }

  /** Whatever body the server answers an update with, the page ends the same. */
  lemma UpdateIgnoresResponse(p: Page, a: Publisher, b: Publisher)
    ensures UpdatePublisher(p, Ok(a)) == UpdatePublisher(p, Ok(b))
  {
  }

  /** Deleting a publisher just added under a fresh id restores the list. */
  lemma AddThenDeleteRestores(p: Page, x: Publisher)
    requires FormFilled(p.newPublisher)
    requires !Listing.HasKey(p.publishers, PublisherId, x.id)
    ensures DeletePublisher(AddPublisher(p, Ok(x)).page, x.id, true, Ok(())).page.publishers == p.publishers
  {
    Listing.RemoveAppended(p.publishers, PublisherId, x);
  }

  /** With unique ids, a confirmed delete of a listed publisher removes that
      one entry and keeps the others in order. */
  lemma DeleteRemovesExactlyOne(p: Page, i: int)
    requires Listing.UniqueKeys(p.publishers, PublisherId)
    requires 0 <= i < |p.publishers|
    ensures var after := DeletePublisher(p, p.publishers[i].id, true, Ok(())).page.publishers;
            after == p.publishers[..i] + p.publishers[i + 1..] && |after| == |p.publishers| - 1
  {
    Listing.RemoveUniquePresent(p.publishers, PublisherId, i);
  }
}
