/** The create page: the `newEvent` record built from the form and posted as is. */
module AddEventPage {
  import opened EventModel
  import opened Text
  import Seqs
  import EventPage

  /** The create form as submitted; the date inputs are taken as already parsed. */
  datatype CreateForm = CreateForm(
    title: string,
    description: string,
    image: string,
    startTime: Time,
    endTime: Time,
    location: string,
    categories: string,
    organizer: string)

  /** `newEvent`: the request body. It has no `id` (the store assigns one) and no
      `organizerImage`; `image` is a string, never `null`. */
  datatype NewEvent = NewEvent(
    title: string,
    description: string,
    image: string,
    startTime: Time,
    endTime: Time,
    location: string,
    categories: seq<string>,
    organizer: string)

  /** The categories input for a new event: split on commas and each piece trimmed;
      empty pieces stay. */
  function SplitCategories(input: string): (r: seq<string>)
    ensures |r| == Count(input, ',') + 1 && |r| == |Split(input, ',')|
    ensures forall k :: 0 <= k < |r| ==> TrimOf(Split(input, ',')[k], r[k])
    ensures forall i :: 0 <= i < |r| ==> IsTrimmed(r[i]) && ',' !in r[i]
  {
    SplitLength(input, ',');
    EventPage.TrimmedPieces(input)
  }

  /** `handleSubmit`: the record passed to `mutate`. There is no check before it, so
      every submission yields a create request. */
  function HandleSubmit(form: CreateForm): (r: NewEvent)
    ensures r.image == form.image
    ensures r.title == form.title && r.description == form.description
         && r.location == form.location && r.organizer == form.organizer
    ensures r.startTime == form.startTime && r.endTime == form.endTime
    ensures r.categories == SplitCategories(form.categories)
    ensures |r.categories| == Count(form.categories, ',') + 1
    ensures forall i :: 0 <= i < |r.categories| ==> IsTrimmed(r.categories[i])
  {
    NewEvent(
      title := form.title,
      description := form.description,
      image := form.image,
      startTime := form.startTime,
      endTime := form.endTime,
      location := form.location,
      categories := SplitCategories(form.categories),
      organizer := form.organizer)
  }

  /** The edit form's parse is the create form's parse with the empty pieces dropped.
      Both parses are built on the same split-and-trim step, so this holds by unfolding
      the two definitions; its point is to record how the two forms differ. */
  lemma EditParseDropsEmptyPieces(input: string)
    ensures EventPage.ParseCategories(input) == Seqs.Filter(SplitCategories(input), EventPage.NonEmpty)
    ensures forall c :: c in EventPage.ParseCategories(input) <==> c in SplitCategories(input) && c != ""
  {
    var pieces := EventPage.TrimmedPieces(input);
    assert SplitCategories(input) == pieces;
    assert EventPage.ParseCategories(input) == Seqs.Filter(pieces, EventPage.NonEmpty);
  }

  lemma SplitExample()
    ensures Split("a,,b", ',') == ["a", "", "b"]
  {
    var e := Split("", ',');
    assert e == [""] && e[1..] == [];
    assert "b"[0] == 'b' && "b"[1..] == "";
    assert ['b'] + e[0] == "b";
    assert Split("b", ',') == ["b"];
    assert ",b"[0] == ',' && ",b"[1..] == "b";
    assert Split(",b", ',') == ["", "b"];
    assert ",,b"[0] == ',' && ",,b"[1..] == ",b";
    assert Split(",,b", ',') == ["", "", "b"];
    assert "a,,b"[0] == 'a' && "a,,b"[1..] == ",,b";
    assert ['a'] + "" == "a";
    assert ["", "", "b"][1..] == ["", "b"];
  }

  lemma TrimPiecesExample()
    ensures EventPage.TrimmedPieces("a,,b") == ["a", "", "b"]
  {
    SplitExample();
    var parts := ["a", "", "b"];
    assert IsTrimmed(parts[0]) && IsTrimmed(parts[1]) && IsTrimmed(parts[2]);
    EventPage.TrimmedPiecesOfTrimmed("a,,b");
  }

  lemma DropEmptyExample()
    ensures Seqs.Filter(["a", "", "b"], EventPage.NonEmpty) == ["a", "b"]
  {
    var pieces := ["a", "", "b"];
    assert pieces[1..] == ["", "b"] && pieces[1..][1..] == ["b"] && pieces[1..][1..][1..] == [];
  }

  /** "a,,b" gives ["a", "", "b"] on create and ["a", "b"] on edit. */
  lemma EmptyPieceExample()
    ensures SplitCategories("a,,b") == ["a", "", "b"]
    ensures EventPage.ParseCategories("a,,b") == ["a", "b"]
  {
    TrimPiecesExample();
    DropEmptyExample();
  }

  /** A create request goes out even when the dates are out of order or a required
      field is empty: the request then carries that range and that empty field,
      where the edit form would have stopped with a warning. */
  lemma CreateHasNoChecks(form: CreateForm, original: Event)
    requires form.endTime <= form.startTime || form.title == ""
    ensures HandleSubmit(form).endTime <= HandleSubmit(form).startTime || HandleSubmit(form).title == ""
    ensures !EventPage.HandleSubmit(original, AsEditForm(form)).SubmitUpdate?
  {
    if form.startTime < form.endTime {
      assert "title" in EventPage.MissingFields(AsEditForm(form)) by {
        assert EventPage.FieldValue(AsEditForm(form), "title") == "";
        assert "title" in EventPage.RequiredFields;
      }
    }
  }

  /** The same inputs typed into the edit form (no organizer image). */
  function AsEditForm(form: CreateForm): EventPage.EditForm
  {
    EventPage.EditForm(form.title, form.description, form.image, form.startTime, form.endTime,
      form.location, form.categories, form.organizer, "")
  }
}
