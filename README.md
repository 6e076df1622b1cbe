# Event listing pages: filter, edit-form and create-form logic

This project models the small amount of pure logic inside the React pages of an
event listing front end. Events are browsed, searched, filtered, created and
edited there:

- **List page** (`src/pages/EventsPage.jsx`). The visible events are those that
  pass two checks. The search check is a case-insensitive substring match over
  title, description, location and every category. The category check is an
  exact-match multi-select. The page also builds the de-duplicated list of all
  categories. Clicking a selected tag removes it from the selection, and
  "Clear all" empties the selection.
- **Edit form** (`src/pages/EventPage.jsx`, `handleSubmit`). It checks the date
  range first, then builds the updated record, then checks the required fields,
  and only then submits. The categories input is pre-filled with
  `categories.join(", ")`, and on submit it is split on commas, trimmed, and
  emptied of blank pieces.
- **Create form** (`src/pages/AddEventPage.jsx`, `handleSubmit`). It builds the
  new record with no check at all. Its categories parse splits and trims but
  keeps empty pieces.

Modules, one per concern:

| file | module | contents |
|---|---|---|
| `seqs.dfy` | `Seqs` | `filter`, `map`, `flatMap`, `[...new Set(xs)]`, subsequence |
| `text.dfy` | `Text` | `toLowerCase`, `includes`, `trim`, `split`, `join` |
| `event_model.dfy` | `EventModel` | the `Event` record, nullable values, abstract instants |
| `events_page.dfy` | `EventsPage` | list filter, `allCategories`, tag removal, clear all |
| `event_page.dfy` | `EventPage` | edit submission: outcome, missing fields, category parse |
| `add_event_page.dfy` | `AddEventPage` | create submission and how its parse differs from the edit parse |

The pages' side effects are results here. `toast(...)` followed by `return`
becomes an `EditOutcome` constructor (`InvalidDateRange` or
`MissingRequiredFields`). `mutation.mutate(updatedEvent)` becomes
`SubmitUpdate(updated)`. `mutate(newEvent)` becomes the returned `NewEvent`.

Behaviour of the code worth knowing, each fact proved:

- Neither form requires a non-empty category list. An edit may save an empty
  list (`EventPage.CategoriesNeverRequired`, `EventPage.EmptyCategoryListIsSaved`).
  A create may save empty strings (`AddEventPage.EmptyPieceExample`).
- The create form validates nothing before `mutate`
  (`AddEventPage.CreateHasNoChecks`).
- On edit a bad date range is reported alone, without the missing fields
  (`EventPage.DateCheckComesFirst`).
- The search has no special case for an empty term. It matches because every
  string contains the empty string (`EventsPage.MatchesSearch`, `Text.Contains`).

## Model

| member | source | states |
|---|---|---|
| `Seqs.Filter` | src/pages/EventsPage.jsx:76-90 | `filter` keeps exactly the elements satisfying the predicate, as an order-preserving subsequence no longer than the input |
| `Seqs.FilterMultiplicity` | src/pages/EventsPage.jsx:76-90 | `filter` keeps every copy of an element that passes and no copy of one that fails: the count of each value is its count in the input or zero |
| `Seqs.FilterConjunction` | src/pages/EventsPage.jsx:89 | filtering by `p && q` equals filtering by `p` and then by `q` |
| `Seqs.FilterMonotone` | src/pages/EventsPage.jsx:85-87 | a predicate that accepts more keeps a super-sequence of what a stricter one keeps |
| `Seqs.Map` | src/pages/EventPage.jsx:168 | `map` keeps the length and applies the function at every index |
| `Seqs.FlatMap` | src/pages/EventsPage.jsx:74 | `flatMap` holds exactly the values found in some element's image |
| `Seqs.FlatMapEmpty` | src/pages/EventsPage.jsx:74 | `flatMap` of the empty list is empty |
| `Seqs.FlatMapSingleton` | src/pages/EventsPage.jsx:74 | `flatMap` of a one-element list is that element's image, unchanged |
| `Seqs.FlatMapAppend` | src/pages/EventsPage.jsx:74 | `flatMap` of a concatenation is the concatenation of the two results, so images appear in list order with all their repeats |
| `Seqs.Dedup` | src/pages/EventsPage.jsx:74 | `[...new Set(xs)]` has no duplicates and holds exactly the values of `xs` |
| `Seqs.DedupFirstOccurrenceOrder` | src/pages/EventsPage.jsx:74 | `[...new Set(xs)]` is a subsequence of `xs`, ordered by the index of each value's first occurrence |
| `Text.Lower` | src/pages/EventsPage.jsx:78-82 | lower-casing keeps the length and maps each character on its own (ASCII letters only) |
| `Text.LowerIdempotent` | src/pages/EventsPage.jsx:78-82 | lower-casing an already lower-cased string changes nothing |
| `Text.Contains` | src/pages/EventsPage.jsx:77-83 | `includes` of the empty string always holds, and a string only includes strings no longer than itself |
| `Text.ContainsAt` | src/pages/EventsPage.jsx:78-82 | `includes` holds iff the needle occurs at some offset of the haystack |
| `Text.ContainsLower` | src/pages/EventsPage.jsx:78-82 | a substring stays a substring after both sides are lower-cased |
| `Text.TrimStart` | src/pages/EventPage.jsx:168 | the leading-whitespace part of `trim`: a suffix of the input, preceded only by whitespace, that does not start with whitespace |
| `Text.TrimEnd` | src/pages/EventPage.jsx:168 | the trailing-whitespace part of `trim`: a prefix of the input, followed only by whitespace, that does not end with whitespace |
| `Text.Trim` | src/pages/EventPage.jsx:168 | `trim` yields a string with no whitespace at either end, never longer than the input |
| `Text.TrimIsSliceBetweenSpaces` | src/pages/EventPage.jsx:168 | `trim` returns the slice of the input between its leading and its trailing whitespace |
| `Text.TrimAround` | src/pages/EventPage.jsx:168 | `trim` of a trimmed string with whitespace on both sides gives that string back |
| `Text.TrimTrimmed` | src/pages/EventPage.jsx:168 | `trim` leaves a string with no outer whitespace unchanged |
| `Text.TrimAddsNothing` | src/pages/EventPage.jsx:168 | `trim` introduces no character that the input lacks |
| `Text.Split` | src/pages/EventPage.jsx:165-167 | `split(",")` always yields at least one piece, and no piece contains the separator |
| `Text.SplitLength` | src/pages/AddEventPage.jsx:59 | `split(",")` yields one more piece than the input has commas |
| `Text.JoinSplit` | src/pages/EventPage.jsx:165-167 | joining the pieces of `split(sep)` with `sep` gives back the input |
| `Text.SplitJoin` | src/pages/EventPage.jsx:165-167 | splitting a `join(sep)` of separator-free pieces gives back the pieces |
| `Text.Join` | src/pages/EventPage.jsx:361 | `join` is at least as long as all pieces together and begins with the first piece |
| `Text.JoinLength` | src/pages/EventPage.jsx:361 | the joined text is as long as all pieces together plus one separator per neighbouring pair |
| `EventsPage.FilteredEvents` | src/pages/EventsPage.jsx:76-90 | `filteredEvents` is an order-preserving subsequence of `events`; an event is in it iff it is in `events`, matches the search and matches the categories |
| `EventsPage.MatchesSearch` | src/pages/EventsPage.jsx:77-83 | the empty search term matches every event |
| `EventsPage.MatchesCategories` | src/pages/EventsPage.jsx:85-87 | an empty selection lets every event through; an event with no categories fails any non-empty selection |
| `EventsPage.NoFilterShowsAll` | src/pages/EventsPage.jsx:76-90 | with an empty term and no selected category, `filteredEvents` equals `events` |
| `EventsPage.FilterIsConjunction` | src/pages/EventsPage.jsx:85-89 | an empty selection leaves only the search check; an empty term leaves only the category check; the full result is either partial result narrowed by the other check |
| `EventsPage.SearchIgnoresTermCase` | src/pages/EventsPage.jsx:78-82 | searching with the lower-cased term matches the same events as the term itself |
| `EventsPage.SearchIgnoresCase` | src/pages/EventsPage.jsx:78-82 | events whose searched fields agree up to case, searched with terms that agree up to case, match alike |
| `EventsPage.CategoriesAlikeUpToCase` | src/pages/EventsPage.jsx:81-82 | when two category lists agree up to case, a match by the `some` over the first implies a match over the second |
| `EventsPage.VerbatimOccurrenceIsFound` | src/pages/EventsPage.jsx:78-83 | a term occurring verbatim in the title, description, location or a category is always matched |
| `EventsPage.UncategorisedNeverSelected` | src/pages/EventsPage.jsx:85-87 | an event without categories is never shown while some category is selected |
| `EventsPage.CategorySelectionIsCaseSensitive` | src/pages/EventsPage.jsx:78-87 | an event tagged "Music" is found by the term "music" and shown for the selection "Music", but hidden for the selection "music" |
| `EventsPage.EventCategories` | src/pages/EventsPage.jsx:74 | the flattened categories hold exactly the categories of some event |
| `EventsPage.EventCategoriesConcatenate` | src/pages/EventsPage.jsx:74 | the flattened categories of no events are empty, of one event are its own list, and of a concatenation are the two flattened lists one after the other, repeats included |
| `EventsPage.AllCategories` | src/pages/EventsPage.jsx:74 | `allCategories` has no duplicates and holds exactly the categories of some event |
| `EventsPage.AllCategoriesInFirstOccurrenceOrder` | src/pages/EventsPage.jsx:74 | `allCategories` lists the categories in the order they first occur in the flattened list |
| `EventsPage.RemoveTag` | src/pages/EventsPage.jsx:160-162 | removing a tag leaves a subsequence of the selection that lacks that category and keeps every other selected category |
| `EventsPage.ClearAll` | src/pages/EventsPage.jsx:172 | after "Clear all" every event passes the category check |
| `EventsPage.ClearAllShowsEverySearchMatch` | src/pages/EventsPage.jsx:172 | after "Clear all" the selection is empty, exactly the search matches are shown, and every event shown before is still shown |
| `EventPage.MissingFields` | src/pages/EventPage.jsx:175-176 | `missingFields` is a subsequence of title, description, location, organizer; it holds exactly the required fields whose value is empty |
| `EventPage.MissingFieldsReadForm` | src/pages/EventPage.jsx:175-176 | each of title, description, location and organizer is reported missing exactly when its own input is empty, and a form with all four filled reports nothing |
| `EventPage.OnlyTitleMissing` | src/pages/EventPage.jsx:175-188 | with good dates and only the title empty, the outcome is the missing-fields error naming exactly "title" |
| `EventPage.CategoriesNeverRequired` | src/pages/EventPage.jsx:175 | the categories input is never reported as missing |
| `EventPage.TrimmedPieces` | src/pages/EventPage.jsx:165-168 | one piece per comma-separated piece of the input; piece k is the k-th piece with only its outer whitespace removed, so it is trimmed and comma-free |
| `EventPage.ParseCategories` | src/pages/EventPage.jsx:165-169 | the parsed categories are the trimmed pieces, in order, that are not empty: an order-preserving subsequence holding exactly the non-empty trimmed pieces, each trimmed and comma-free |
| `EventPage.FormatCategories` | src/pages/EventPage.jsx:361 | no categories give the empty default text; for comma-free categories, splitting the default text on commas gives one piece per category, each after the first preceded by a blank |
| `EventPage.CommaOnlyParsesEmpty` | src/pages/EventPage.jsx:165-169 | a categories input holding only a comma parses to the empty list |
| `EventPage.UpdatedEvent` | src/pages/EventPage.jsx:156-172 | the updated record keeps the original id and the store's other fields; title, description, location, organizer and both instants are the form's; image and organizer image are null exactly when their inputs are empty and otherwise the input as typed; categories are the parsed input, each non-empty and trimmed |
| `EventPage.HandleSubmit` | src/pages/EventPage.jsx:136-191 | "Invalid date range" iff end is not after start; missing-fields error iff the dates are ordered and some required field is empty, naming them; update submitted iff the dates are ordered and nothing is missing, and the record sent has start before end |
| `EventPage.DateCheckComesFirst` | src/pages/EventPage.jsx:144-188 | bad dates together with missing fields report only the date-range failure |
| `EventPage.EmptyCategoryListIsSaved` | src/pages/EventPage.jsx:136-191 | with good dates and the required fields filled, a categories input of a lone comma submits an update whose category list is empty |
| `EventPage.CategoriesRoundTrip` | src/pages/EventPage.jsx:165-169 | parsing the default text `categories.join(", ")` (line 361) gives back `categories` when each is non-empty, trimmed and comma-free |
| `EventPage.JoinWithSpace` | src/pages/EventPage.jsx:361 | `join(", ")` equals `join(",")` after a blank is put before every piece but the first |
| `EventPage.SpacedPiecesCommaFree` | src/pages/EventPage.jsx:361 | putting a blank before comma-free pieces keeps them comma-free |
| `EventPage.TrimSpacedPieces` | src/pages/EventPage.jsx:168 | trimming those blank-prefixed pieces gives back the original trimmed categories |
| `EventPage.TrimSpaced` | src/pages/EventPage.jsx:168 | trimming a trimmed category with the separator's blank in front gives back the category |
| `EventPage.TrimmedPiecesOfTrimmed` | src/pages/EventPage.jsx:165-168 | when every comma-separated piece of the input is already trimmed, the split-and-trim step returns the split unchanged |
| `AddEventPage.SplitCategories` | src/pages/AddEventPage.jsx:59 | the create parse yields one category per comma plus one; category k is the k-th comma-separated piece with its outer whitespace removed, empty ones kept |
| `AddEventPage.HandleSubmit` | src/pages/AddEventPage.jsx:48-63 | every create submission yields a request; `image` passes through without null coercion; the text fields and times are copied; the categories are exactly `SplitCategories` of the input, one per comma plus one, each trimmed |
| `AddEventPage.EditParseDropsEmptyPieces` | src/pages/AddEventPage.jsx:59 | the edit parse is the create parse with the empty pieces removed |
| `AddEventPage.SplitExample` | src/pages/AddEventPage.jsx:59 | "a,,b" splits on commas into "a", "" and "b" |
| `AddEventPage.EmptyPieceExample` | src/pages/AddEventPage.jsx:59 | "a,,b" gives ["a", "", "b"] on create and ["a", "b"] on edit |
| `AddEventPage.CreateHasNoChecks` | src/pages/AddEventPage.jsx:48-63 | a create request goes out with a reversed date range or an empty title, where the edit form would refuse the same inputs |

`NewEvent`, the create request type, has no `id` and no `organizerImage` field,
and its `image` is a plain string. That is how the model states that the create
request carries neither field and never coerces `image` to null
(src/pages/AddEventPage.jsx:52-61).

## Left out

- HTTP through axios: fetching, creating, updating and deleting events, and the
  mapping of transport errors to messages. These are network I/O.
- The react-query cache: query keys, the single retry, and `invalidateQueries`
  after mutations. This is library behaviour that is not visible in these files.
- Date parsing and formatting (`new Date(...)`, `toISOString`,
  `toLocaleString`, `startTime.slice(0, 16)`). Instants are abstract integers
  compared with `<=`. An unparseable date input is not modelled. In the page it
  gives an invalid date: the `<=` comparison is false, so it passes the date
  check, and then `toISOString` throws.
- `Text.Lower`: lowercases ASCII letters only. Full Unicode `toLowerCase` (for
  example, letters with accents) is not modelled.
- Browser-side enforcement of the `isRequired` inputs, which can block a submit
  before `handleSubmit` runs. Every text input is taken to submit a string,
  possibly empty.
- The category menu's own `onChange`, which replaces the selection with
  whatever the menu component reports. The menu component is third-party code.
- All rendering, toasts, modals, dialogs and navigation.
- The routing table, the layout component, and the placeholder list page at the
  bottom of the create-page file. They contain no logic.
- `EventPage.CategoriesRoundTrip`: holds only for categories that are non-empty,
  trimmed and comma-free. Other categories do not survive an edit unchanged:
  empty ones are dropped, whitespace is stripped, and a comma splits a category
  in two.
