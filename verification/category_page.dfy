/** The Categories page: a list of categories seeded with five samples on an
    empty first load, a "new category" form, an edit draft and a per-id
    details toggle. Like the Authors page it validates nothing before sending. */
module CategoryPage {
  import opened Values
  import opened Library
  import Listing
  import Seeding

  /** The "new category" form. */
  datatype CategoryForm = CategoryForm(name: Value, description: Value)

  const EmptyForm := CategoryForm(Str(""), Str(""))

  /** Created, in this order, when the first list comes back empty. */
  const SampleCategories: seq<CategoryForm> := [
    CategoryForm(Str("Fiction"), Str("Novels and stories")),
    CategoryForm(Str("Science"), Str("Books on science")),
    CategoryForm(Str("History"), Str("Historical books")),
    CategoryForm(Str("Philosophy"), Str("Philosophical works")),
    CategoryForm(Str("Technology"), Str("Tech-related books"))
  ]

  /** The requests this page sends to the categories resource. */
  datatype Call = List | Create(draft: CategoryForm) | Update(id: int, body: Category) | Delete(id: int)

  datatype Page = Page(
    categories: seq<Category>,
    newCategory: CategoryForm,
    selected: Option<Category>,             // the edit draft; None hides the edit form
    visibleDetails: map<int, bool>)

  const Mounted := Page([], EmptyForm, None, map[])

  function Creates(ds: seq<CategoryForm>): seq<Call>
  {
    seq(|ds|, i requires 0 <= i < |ds| => Create(ds[i]))
  }

  /** The mount effect. `first` and `relist` answer the two list requests;
      `createReplies[i]` answers the create of the i-th sample. */
  method Load(p: Page, first: Reply<seq<Category>>, createReplies: seq<Reply<Category>>,
              relist: Reply<seq<Category>>)
    returns (r: Step<Page, Call>)
    requires |createReplies| == |SampleCategories|
    ensures first.Err? ==> r == Step(p, [List], Silent)
    ensures first.Ok? && |first.value| > 0 ==> r == Step(p.(categories := first.value), [List], Silent)
    ensures first.Ok? && |first.value| == 0 && Seeding.LeadingOk(createReplies) == 5 ==>
              && r.calls == [List, Create(SampleCategories[0]), Create(SampleCategories[1]),
                             Create(SampleCategories[2]), Create(SampleCategories[3]),
                             Create(SampleCategories[4]), List]
              && (relist.Ok? ==> r == Step(p.(categories := relist.value), r.calls, Silent))
              && (relist.Err? ==> r.page == p && r.notice == Silent)
    ensures first.Ok? && |first.value| == 0 && Seeding.LeadingOk(createReplies) < 5 ==>
              var k := Seeding.LeadingOk(createReplies);
              r == Step(p, [List] + Creates(SampleCategories[..k + 1]), Silent)
  {
    var run := Seeding.FetchOrSeed(SampleCategories, first, createReplies, relist);
    var calls := [List] + Creates(run.created) + (if run.relisted then [List] else []);
    var page := if run.items.Some? then p.(categories := run.items.value) else p;
    r := Step(page, calls, Silent);
  }

  function ToggleDetails(p: Page, id: int): (r: Page)
    ensures Listing.Visible(r.visibleDetails, id) == !Listing.Visible(p.visibleDetails, id)
    ensures forall k :: k != id ==> Listing.Visible(r.visibleDetails, k) == Listing.Visible(p.visibleDetails, k)
    ensures r == p.(visibleDetails := r.visibleDetails)
  {
    p.(visibleDetails := Listing.Toggle(p.visibleDetails, id))
  }

  /** The edit button: the row becomes the edit draft. */
  function SelectForEdit(p: Page, x: Category): Page
  {
    p.(selected := Some(x))
  }

  /** Sends the form as it stands, whatever its fields hold. */
  function AddCategory(p: Page, reply: Reply<Category>): (r: Step<Page, Call>)
    ensures r.calls == [Create(p.newCategory)]
    ensures reply.Ok? ==>
              && r.page == p.(categories := p.categories + [reply.value], newCategory := EmptyForm)
              && r.notice == Success
    ensures reply.Err? ==> r.page == p && r.notice == Error(RequestFailed)
  {
    var calls := [Create(p.newCategory)];
    match reply
    case Ok(added) => Step(p.(categories := p.categories + [added], newCategory := EmptyForm), calls, Success)
    case Err => Step(p, calls, Error(RequestFailed))
  }

  /** Saves the edit draft; the list entry with the draft's id becomes the
      local draft. With no draft, reading its id throws inside the handler's
      try block, which shows the same error toast and sends nothing. */
  function UpdateCategory(p: Page, reply: Reply<Category>): (r: Step<Page, Call>)
    ensures p.selected.None? ==> r == Step(p, [], Error(RequestFailed))
    ensures p.selected.Some? ==> r.calls == [Update(p.selected.value.id, p.selected.value)]
    ensures p.selected.Some? && reply.Ok? ==>
              var sel := p.selected.value;
              && |r.page.categories| == |p.categories|
              && (forall i :: 0 <= i < |p.categories| ==>
                    r.page.categories[i] == if p.categories[i].id == sel.id then sel else p.categories[i])
              && Listing.Keys(r.page.categories, CategoryId) == Listing.Keys(p.categories, CategoryId)
              && r.page == p.(categories := r.page.categories, selected := None)
              && r.notice == Success
    ensures p.selected.Some? && reply.Err? ==> r.page == p && r.notice == Error(RequestFailed)
  {
    match p.selected
    case None => Step(p, [], Error(RequestFailed))
    case Some(sel) =>
      var calls := [Update(sel.id, sel)];
      if reply.Ok? then
        Step(p.(categories := Listing.ReplaceWhere(p.categories, CategoryId, sel.id, sel), selected := None),
             calls, Success)
      else Step(p, calls, Error(RequestFailed))
  }

  /** `confirmed` is the answer to the confirmation prompt.
      The kept entries stay in their order (`Listing.RemoveConcat`); with
      distinct ids exactly one entry goes (`DeleteRemovesExactlyOne`). */
  function DeleteCategory(p: Page, id: int, confirmed: bool, reply: Reply<()>): (r: Step<Page, Call>)
    ensures !confirmed ==> r == Step(p, [], Silent)
    ensures confirmed ==> r.calls == [Delete(id)]
    ensures confirmed && reply.Ok? ==>
              && (forall x :: x in r.page.categories ==> x in p.categories && x.id != id)
              && (forall x :: x in p.categories && x.id != id ==> x in r.page.categories)
              && r.page == p.(categories := r.page.categories)
              && r.notice == Success
    ensures confirmed && reply.Err? ==> r.page == p && r.notice == Error(RequestFailed)
  {
    if !confirmed then Step(p, [], Silent)
    else if reply.Ok? then
      Listing.RemoveMembers(p.categories, CategoryId, id);
      Step(p.(categories := Listing.RemoveWhere(p.categories, CategoryId, id)), [Delete(id)], Success)
    else Step(p, [Delete(id)], Error(RequestFailed))
  }

  /** Whatever body the server answers an update with, the page ends the same. */
  lemma UpdateIgnoresResponse(p: Page, a: Category, b: Category)
    ensures UpdateCategory(p, Ok(a)) == UpdateCategory(p, Ok(b))
  {
  }

  /** Deleting a category just added under a fresh id restores the list. */
  lemma AddThenDeleteRestores(p: Page, x: Category)
    requires !Listing.HasKey(p.categories, CategoryId, x.id)
    ensures DeleteCategory(AddCategory(p, Ok(x)).page, x.id, true, Ok(())).page.categories == p.categories
  {
    Listing.RemoveAppended(p.categories, CategoryId, x);
  }

  /** With unique ids, a confirmed delete of a listed category removes that
      one entry and keeps the others in order. */
  lemma DeleteRemovesExactlyOne(p: Page, i: int)
    requires Listing.UniqueKeys(p.categories, CategoryId)
    requires 0 <= i < |p.categories|
    ensures var after := DeleteCategory(p, p.categories[i].id, true, Ok(())).page.categories;
            after == p.categories[..i] + p.categories[i + 1..] && |after| == |p.categories| - 1
  {
    Listing.RemoveUniquePresent(p.categories, CategoryId, i);
  }
}
