/** The detail page's edit form: date check, updated record, required-field check. */
module EventPage {
  import opened EventModel
  import opened Text
  import Seqs

  /** The edit form as submitted. Text inputs always submit a string (possibly empty);
      the two date inputs are taken as already parsed. */
  datatype EditForm = EditForm(
    title: string,
    description: string,
    image: string,
    startTime: Time,
    endTime: Time,
    location: string,
    categories: string,
    organizer: string,
    organizerImage: string)

  /** What a submission leads to: the "Invalid date range" warning, the
      "Missing required fields" error naming the fields, or the update request. */
  datatype EditOutcome =
    | InvalidDateRange
    | MissingRequiredFields(fields: seq<string>)
    | SubmitUpdate(updated: Event)

  /** `requiredFields`, in the order they are reported. */
  const RequiredFields: seq<string> := ["title", "description", "location", "organizer"]

  /** `formData.get(name)` for the text inputs; a name the form lacks reads as empty,
      which is falsy just like the `null` the browser returns. */
  function FieldValue(form: EditForm, name: string): string
  {
    match name
    case "title" => form.title
    case "description" => form.description
    case "image" => form.image
    case "location" => form.location
    case "categories" => form.categories
    case "organizer" => form.organizer
    case "organizerImage" => form.organizerImage
    case _ => ""
  }

  function IsMissing(form: EditForm): string -> bool
  {
    name => FieldValue(form, name) == ""
  }

  /** `missingFields`: the required fields left empty, in the order of `RequiredFields`.
      Only emptiness counts; a value of blanks is present. */
  function MissingFields(form: EditForm): (r: seq<string>)
    ensures Seqs.IsSubsequence(r, RequiredFields)
    ensures forall f :: f in r <==> f in RequiredFields && FieldValue(form, f) == ""
  {
    Seqs.Filter(RequiredFields, IsMissing(form))
  }

  function NonEmpty(s: string): bool
  {
    s != ""
  }

  /** The categories input split on commas, each piece trimmed: piece `k` is the
      `k`-th comma-separated piece of the input without its outer whitespace. */
  function TrimmedPieces(input: string): (r: seq<string>)
    ensures |r| == |Split(input, ',')|
    ensures forall k :: 0 <= k < |r| ==> TrimOf(Split(input, ',')[k], r[k])
    ensures forall k :: 0 <= k < |r| ==> IsTrimmed(r[k]) && ',' !in r[k]
  {
    var parts := Split(input, ',');
    var pieces := Seqs.Map(parts, Trim);
    forall k | 0 <= k < |pieces| ensures ',' !in pieces[k] && TrimOf(parts[k], pieces[k]) {
      TrimAddsNothing(parts[k], ',');
      TrimIsSliceBetweenSpaces(parts[k]);
    }
    pieces
  }

  /** The categories input parsed for an update: split on commas, each piece
      trimmed, empty pieces dropped. */
  function ParseCategories(input: string): (r: seq<string>)
    ensures Seqs.IsSubsequence(r, TrimmedPieces(input))
    ensures forall c :: c in r <==> c in TrimmedPieces(input) && c != ""
    ensures forall i :: 0 <= i < |r| ==> r[i] != "" && IsTrimmed(r[i]) && ',' !in r[i]
  {
    var pieces := TrimmedPieces(input);
    var r := Seqs.Filter(pieces, NonEmpty);
    forall i | 0 <= i < |r| ensures r[i] != "" && IsTrimmed(r[i]) && ',' !in r[i] {
      assert r[i] in pieces && NonEmpty(r[i]);
    }
    r
  }

  /** The default text of the categories input: `categories.join(", ")`. No categories
      give the empty text; for comma-free categories, splitting the text on commas gives
      one piece per category, each after the first with the blank the separator put in front. */
  function FormatCategories(categories: seq<string>): (r: string)
    ensures categories == [] ==> r == ""
    ensures |categories| >= 1 && (forall i :: 0 <= i < |categories| ==> ',' !in categories[i]) ==>
      Split(r, ',') == [categories[0]] + Seqs.Map(categories[1..], Spaced)
  {
    var r := Join(categories, ", ");
    if |categories| >= 1 && (forall i :: 0 <= i < |categories| ==> ',' !in categories[i]) then
      JoinWithSpace(categories);
      SpacedPiecesCommaFree(categories);
      SplitJoin([categories[0]] + Seqs.Map(categories[1..], Spaced), ',');
      r
    else r
  }

  /** `x || null` for a text input. */
  function NullIfEmpty(s: string): Option<string>
  {
    if s == "" then None else Some(s)
  }

  /** `updatedEvent`: the original record with every form field written over it.
      The identity and any further stored properties are kept; the text fields and
      the two instants are the form's; an empty image field becomes `null` and a
      non-empty one is kept as typed; the categories are the parsed input. */
  function UpdatedEvent(original: Event, form: EditForm): (r: Event)
    ensures r.id == original.id && r.otherFields == original.otherFields
    ensures r.title == form.title && r.description == form.description
    ensures r.location == form.location && r.organizer == form.organizer
    ensures r.startTime == form.startTime && r.endTime == form.endTime
    ensures r.image.None? <==> form.image == ""
    ensures r.image.Some? ==> r.image.value == form.image
    ensures r.organizerImage.None? <==> form.organizerImage == ""
    ensures r.organizerImage.Some? ==> r.organizerImage.value == form.organizerImage
    ensures r.categories == ParseCategories(form.categories)
    ensures forall i :: 0 <= i < |r.categories| ==> r.categories[i] != "" && IsTrimmed(r.categories[i])
  {
    original.(
      title := form.title,
      description := form.description,
      image := NullIfEmpty(form.image),
      startTime := form.startTime,
      endTime := form.endTime,
      location := form.location,
      categories := ParseCategories(form.categories),
      organizer := form.organizer,
      organizerImage := NullIfEmpty(form.organizerImage))
  }

  /** `handleSubmit`: the date check first, then the required-field check, then the update. */
  function HandleSubmit(original: Event, form: EditForm): (r: EditOutcome)
    ensures r.InvalidDateRange? <==> form.endTime <= form.startTime
    ensures r.MissingRequiredFields? <==> form.startTime < form.endTime && MissingFields(form) != []
    ensures r.MissingRequiredFields? ==> r.fields == MissingFields(form)
    ensures r.SubmitUpdate? <==> form.startTime < form.endTime && MissingFields(form) == []
    ensures r.SubmitUpdate? ==> r.updated == UpdatedEvent(original, form) && r.updated.startTime < r.updated.endTime
  {
    if form.endTime <= form.startTime then InvalidDateRange
    else
      var updated := UpdatedEvent(original, form);
      var missing := MissingFields(form);
      if |missing| > 0 then MissingRequiredFields(missing)
      else SubmitUpdate(updated)
  }

  /** A bad date range hides any missing fields: only the date warning is shown. */
  lemma DateCheckComesFirst(original: Event, form: EditForm)
    requires form.endTime <= form.startTime && MissingFields(form) != []
    ensures HandleSubmit(original, form) == InvalidDateRange
  {
  }

  /** With good dates and only the title empty, exactly "title" is reported. */
  lemma OnlyTitleMissing(original: Event, form: EditForm)
    requires form.startTime < form.endTime
    requires form.title == "" && form.description != "" && form.location != "" && form.organizer != ""
    ensures HandleSubmit(original, form) == MissingRequiredFields(["title"])
  {
    assert MissingFields(form) == ["title"] by {
      var m := IsMissing(form);
      assert m("title") && !m("description") && !m("location") && !m("organizer");
      assert RequiredFields[1..][1..][1..][1..] == [];
    }
  }

  /** Each required field is reported exactly when its input is empty, and a form
      with all four filled reports nothing. */
  lemma MissingFieldsReadForm(form: EditForm)
    ensures "title" in MissingFields(form) <==> form.title == ""
    ensures "description" in MissingFields(form) <==> form.description == ""
    ensures "location" in MissingFields(form) <==> form.location == ""
    ensures "organizer" in MissingFields(form) <==> form.organizer == ""
    ensures form.title != "" && form.description != "" && form.location != "" && form.organizer != ""
      ==> MissingFields(form) == []
  {
    var r := MissingFields(form);
    RequiredInputsRead(form);
    assert RequiredFields[0] == "title" && RequiredFields[1] == "description";
    assert RequiredFields[2] == "location" && RequiredFields[3] == "organizer";
    if r != [] {
      assert r[0] in r;
    }
  }

  lemma RequiredInputsRead(form: EditForm)
    ensures FieldValue(form, "title") == form.title && FieldValue(form, "description") == form.description
    ensures FieldValue(form, "location") == form.location && FieldValue(form, "organizer") == form.organizer
  {
  }

  /** The categories input is not a required field. */
  lemma CategoriesNeverRequired(form: EditForm)
    ensures "categories" !in MissingFields(form)
  {
  }

  /** An edit may save an empty category list: with good dates and the required
      fields filled, a categories input holding only a comma is submitted as `[]`. */
  lemma EmptyCategoryListIsSaved(original: Event, form: EditForm)
    requires form.startTime < form.endTime
    requires form.title != "" && form.description != "" && form.location != "" && form.organizer != ""
    requires form.categories == ","
    ensures HandleSubmit(original, form).SubmitUpdate?
    ensures HandleSubmit(original, form).updated.categories == []
  {
    MissingFieldsReadForm(form);
    CommaOnlyParsesEmpty();
  }

  /** A lone comma splits into two empty pieces, and both are dropped. */
  lemma CommaOnlyParsesEmpty()
    ensures ParseCategories(",") == []
  {
    assert Split(",", ',') == ["", ""] by {
      assert Split("", ',') == [""];
    }
    assert IsTrimmed("");
    TrimmedPiecesOfTrimmed(",");
    assert Seqs.Filter(["", ""], NonEmpty) == [] by {
      assert ["", ""][1..] == [""];
      assert [""][1..] == [];
    }
  }

  /** The form's default categories text parses back to the event's categories,
      provided each category is non-empty, trimmed and free of commas. */
  lemma {:induction false} CategoriesRoundTrip(categories: seq<string>)
    requires forall i :: 0 <= i < |categories| ==> categories[i] != "" && IsTrimmed(categories[i]) && ',' !in categories[i]
    ensures ParseCategories(FormatCategories(categories)) == categories
  {
    if categories == [] {
      assert Split("", ',') == [""];
      TrimTrimmed("");
      assert Seqs.Map([""], Trim) == [""];
      assert TrimmedPieces("") == [""];
    } else {
      TrimSpacedPieces(categories);
      assert TrimmedPieces(FormatCategories(categories)) == categories;
      Seqs.FilterKeepsAll(categories, NonEmpty);
    }
  }

  /** Trimming the pieces of `join(", ")` split on commas removes the added blanks. */
  lemma TrimSpacedPieces(categories: seq<string>)
    requires |categories| >= 1
    requires forall i :: 0 <= i < |categories| ==> IsTrimmed(categories[i])
    ensures Seqs.Map([categories[0]] + Seqs.Map(categories[1..], Spaced), Trim) == categories
  {
    var pieces := [categories[0]] + Seqs.Map(categories[1..], Spaced);
    forall i | 0 <= i < |pieces| ensures Trim(pieces[i]) == categories[i] {
      if i == 0 {
        TrimTrimmed(categories[0]);
      } else {
        assert pieces[i] == Spaced(categories[i]);
        TrimSpaced(categories[i]);
      }
    }
    Seqs.MapPointwise(pieces, Trim, categories);
  }

  /** The blank the separator puts before a trimmed category is trimmed away again. */
  lemma TrimSpaced(c: string)
    requires IsTrimmed(c)
    ensures Trim(Spaced(c)) == c
  {
    TrimAround(" ", c, "");
    assert " " + c + "" == Spaced(c);
  }

  /** When every piece of the input is already trimmed, trimming changes nothing. */
  lemma TrimmedPiecesOfTrimmed(input: string)
    requires forall i :: 0 <= i < |Split(input, ',')| ==> IsTrimmed(Split(input, ',')[i])
    ensures TrimmedPieces(input) == Split(input, ',')
  {
    var parts := Split(input, ',');
    forall i | 0 <= i < |parts| ensures Trim(parts[i]) == parts[i] {
      TrimTrimmed(parts[i]);
    }
  }

  function Spaced(s: string): string
  {
    " " + s
  }

  /** Joining with ", " is joining with "," after putting a blank before every piece but the first. */
  lemma {:induction false} JoinWithSpace(parts: seq<string>)
    requires |parts| >= 1
    ensures Join(parts, ", ") == Join([parts[0]] + Seqs.Map(parts[1..], Spaced), ",")
    decreases |parts|
  {
    var pieces := [parts[0]] + Seqs.Map(parts[1..], Spaced);
    if |parts| > 1 {
      JoinWithSpace(parts[1..]);
      assert parts[1..][1..] == parts[2..];
      var tail := [parts[1]] + Seqs.Map(parts[2..], Spaced);
      assert pieces[1..] == [[' '] + tail[0]] + tail[1..];
      JoinPrependChar(' ', tail, ",");
    }
  }

  /** Putting a blank before comma-free pieces keeps them comma-free. */
  lemma SpacedPiecesCommaFree(parts: seq<string>)
    requires |parts| >= 1
    requires forall i :: 0 <= i < |parts| ==> ',' !in parts[i]
    ensures forall i :: 0 <= i < |parts| ==> ',' !in ([parts[0]] + Seqs.Map(parts[1..], Spaced))[i]
  {
    var pieces := [parts[0]] + Seqs.Map(parts[1..], Spaced);
    forall i | 0 <= i < |parts| ensures ',' !in pieces[i] {
      if i > 0 {
        assert pieces[i] == " " + parts[i];
      }
    }
  }
}
