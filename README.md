# Bakery demo: opening hours, locations and blog tags in Dafny

This project models the business logic inside two page-model files of the
Wagtail "bakerydemo" site and proves what that logic does.

- `bakerydemo/locations/models.py`:
  - the operating-hours row and its weekday choices;
  - the one-line rendering of a row (`OperatingHours.__str__`);
  - the open-now check of a location (`LocationPage.is_open`);
  - the validation of the `lat_long` field;
  - the split of `lat_long` into the `lat` and `long` template variables
    (`LocationPage.get_context`).
- `bakerydemo/blog/models.py`:
  - the authors of a post (`BlogPage.authors`);
  - the archive URL given to each of a post's tags (`BlogPage.get_tags`);
  - the index page's tag archive (`BlogIndexPage.tag_archive`) and its two
    sub-routes.

Files:

- `python.dfy` (module `Python`): the Python values the code relies on.
  These are `None`, raised exceptions, and `str.split`, `str.join`,
  `str.strip` and `str.upper` over strings of characters.
- `hours.dfy` (module `Hours`): the operating-hours row, the weekday choice
  codes, `strftime('%H:%M')` and the row's rendering.
- `locations.dfy` (module `Locations`): `is_open`, the `lat_long` grammar
  and field cleaning, and `get_context`.
- `blog.dfy` (module `Blog`): authors, tag URLs, `get_tags` as a loop that
  updates each tag object in place, the routes and `tag_archive`.

Inputs that come from outside the code become parameters:

- the clock (`datetime.now()`) becomes a `Weekday` and a time of day in
  microseconds since midnight;
- `settings.TIME_ZONE` becomes a time-zone label;
- the page's related rows become a sequence of `OperatingHours`;
- the tag table becomes a map from slug to tag name;
- the parent page's and index page's URLs become strings.

Framework effects are results, not I/O. A queued message, a redirect and a
rendered template are the `Blog.Response` datatype. An exception that
escapes is the `Raise` case of `Python.Result`.

### Behaviour of the code worth knowing

- `is_open` never reads the "Closed?" flag, although its help text
  (`bakerydemo/locations/models.py:46`) says a tick means the location is
  closed that day (`Locations.ClosedFlagIgnored`).
- Two rows covering the current time make `QuerySet.get()` raise
  `MultipleObjectsReturned`, and only `DoesNotExist` is caught
  (`Locations.IsOpenOutcomes`, `Locations.DuplicateRowRaises`).
- A bad `lat_long` fails field cleaning with code `invalid_lat_long`. The
  field is also capped at 36 characters and may not be blank
  (`Locations.CleanLatLong`).
- Rendering a row with a closing time and no opening time raises
  `AttributeError` (`Hours.OperatingHoursStr`).
- Tuesday and Thursday rows can never match
  (`Locations.NeverOpenOnTuesdayOrThursday`).

## Model

| member | source | states |
|---|---|---|
| Python.SplitParts | bakerydemo/locations/models.py:164-165 | No part of `str.split(',')` holds the separator. There is exactly one part iff the text holds no separator. |
| Python.SplitAt | bakerydemo/locations/models.py:164-165 | The text before the first separator is the first part, and the text after it splits on. |
| Python.JoinSplit | bakerydemo/locations/models.py:164-165 | Joining the parts of a split with the separator gives back the original text, so splitting loses nothing. |
| Python.SplitJoin | bakerydemo/locations/models.py:164-165 | Splitting a join of separator-free parts gives back exactly those parts. |
| Python.Strip | bakerydemo/blog/models.py:101-105 | `str.strip('/')` leaves no slash at either end. The result is empty iff the text is all slashes. |
| Python.StripMiddle | bakerydemo/blog/models.py:101-105 | For a run of slashes, a part that neither starts nor ends with a slash, and another run of slashes, stripping gives exactly that part. Inner slashes are kept. |
| Python.StripIdempotent | bakerydemo/blog/models.py:101-105 | Stripping twice is stripping once. |
| Python.Upper | bakerydemo/locations/models.py:151 | `str.upper()` keeps the length and upper-cases each ASCII letter in place. |
| Hours.ChoiceCodesListed | bakerydemo/locations/models.py:22-30 | The weekday choice codes are exactly MON, TUES, WED, THUR, FRI, SAT and SUN. |
| Hours.ChoiceDayCode | bakerydemo/locations/models.py:22-30 | Each weekday's stored code is one of the choice codes. |
| Hours.ChoiceDayCodeBijective | bakerydemo/locations/models.py:22-30 | Weekdays and choice codes correspond one to one. |
| Hours.FormatHHMM | bakerydemo/locations/models.py:61 | `strftime('%H:%M')` is five characters with ':' in the middle. It reads back as the minute of the day the time falls in, so seconds are dropped. |
| Hours.TimeTextRoundTrip | bakerydemo/locations/models.py:60-67 | A time field's text ("HH:MM", or "--" for no time) reads back as that field's minute of the day, or as no time. |
| Hours.ParseHHMMInjective | bakerydemo/locations/models.py:61 | Two "HH:MM" texts that read back as the same minute of the day are the same text. |
| Hours.ParseTimeTextInjective | bakerydemo/locations/models.py:60-67 | Two time-field texts with the same reading are the same text. |
| Hours.ParseDisplayOf | bakerydemo/locations/models.py:68-73 | A text "<day>: <open> - <close> <tz>" reads back, for the known day and time zone, as its two time fields. |
| Hours.ParseDisplayInjective | bakerydemo/locations/models.py:68-73 | For a known day and time zone, two renderings that read back alike are equal, so the reading pins the rendering exactly. |
| Hours.OperatingHoursStr | bakerydemo/locations/models.py:59-73 | The rendering raises iff a closing time is set and no opening time is, and then it raises AttributeError. Otherwise it reads back as the opening time, followed by the opening time again when a closing time is set, or by no time when none is. |
| Hours.StrIgnoresClosingTime | bakerydemo/locations/models.py:64-65 | Changing which closing time is set never changes the rendering. |
| Hours.StrShowsOpeningTwice | bakerydemo/locations/models.py:59-73 | A Monday row from 09:00 to 17:00 renders as "MON: 09:00 - 09:00 UTC". |
| Hours.OperatingHoursStrIntended | bakerydemo/locations/models.py:59-73 | The corrected rendering reads back as the opening and the closing time, and never raises. |
| Locations.CurrentDayCode | bakerydemo/locations/models.py:151 | The looked-up day code is three characters long. |
| Locations.CurrentDayCodeValue | bakerydemo/locations/models.py:151 | The looked-up codes, Monday to Sunday, are MON, TUE, WED, THU, FRI, SAT and SUN. |
| Locations.CurrentDayCodeMismatch | bakerydemo/locations/models.py:22-36 | The looked-up code is never TUES, THUR or the default MONDAY. It is a choice code iff the day is neither Tuesday nor Thursday. |
| Locations.MatchingKeepsCovering | bakerydemo/locations/models.py:153-157 | The filtered rows are exactly the rows with the day code, an opening time at or before now and a closing time at or after now. |
| Locations.LookupOpen | bakerydemo/locations/models.py:152-160 | The lookup answers False iff no row covers now. Anything it raises is MultipleObjectsReturned with a count of at least two. |
| Locations.IsOpenOutcomes | bakerydemo/locations/models.py:147-160 | `is_open` gives False iff no row covers now, and True iff exactly one row does. It raises iff two different rows do; the first matching row is never chosen. |
| Locations.OvernightNeverCovers | bakerydemo/locations/models.py:155-156 | A row whose closing time is before its opening time covers no time at all. |
| Locations.NullTimeNeverOpens | bakerydemo/locations/models.py:152-160 | Rows each missing an opening or a closing time never make the location open. |
| Locations.WindowBoundaries | bakerydemo/locations/models.py:155-156 | Both ends of a window count. A Monday 09:00-17:00 row is open at 09:00 and at 17:00, and closed at 08:59 and at 17:01. |
| Locations.NeverOpenOnTuesdayOrThursday | bakerydemo/locations/models.py:147-160 | With rows stored under the choice codes or the default day, the location is never open on a Tuesday or a Thursday. |
| Locations.ClosedFlagIgnored | bakerydemo/locations/models.py:152-157 | Setting or clearing any row's closed flag never changes the outcome of `is_open`. |
| Locations.ClosedRowStillOpens | bakerydemo/locations/models.py:43-47 | A Monday row ticked closed whose window covers noon still reports open at noon. |
| Locations.DuplicateRowRaises | bakerydemo/locations/models.py:152-160 | A covering row entered twice makes `is_open` raise MultipleObjectsReturned with a count of 2. |
| Locations.OpenRows | bakerydemo/locations/models.py:43-47 | The rows not ticked closed are exactly those of the input whose flag is clear. |
| Locations.IntendedRespectsClosed | bakerydemo/locations/models.py:43-47 | Under the corrected check, a day whose rows are all ticked closed is closed. An open verdict always rests on an unticked row for that day that covers now. |
| Locations.IntendedOpensEveryDay | bakerydemo/locations/models.py:22-30 | Under the corrected check, one unticked row covering now opens the location on every weekday, Tuesday and Thursday included. |
| Locations.CoordinateByScan | bakerydemo/locations/models.py:119 | The scanning recogniser accepts exactly one coordinate `-?\d+(\.\d+)?`. |
| Locations.IsLatLongMatchesPattern | bakerydemo/locations/models.py:119 | The scanning recogniser accepts exactly the texts the whole pattern `^(-?\d+(\.\d+)?),\s*(-?\d+(\.\d+)?)$` matches. |
| Locations.CleanLatLong | bakerydemo/locations/models.py:113-124 | Cleaning reports no error iff the text is non-empty, matches the pattern and is at most 36 characters. It reports blank iff the text is empty. It reports invalid_lat_long iff a non-empty text fails the pattern, and max_length iff the text is longer than 36. At most two errors are reported; blank comes alone, and invalid_lat_long comes before max_length. |
| Locations.HelpTextExample | bakerydemo/locations/models.py:115-116 | The help text's example "64.144367, -21.939182" cleans with no error. "64.14, abc" gets only invalid_lat_long. |
| Locations.SplitValidLatLong | bakerydemo/locations/models.py:164-165 | A valid `lat_long` splits into exactly two parts around its comma. The first is a coordinate. The second is whitespace followed by a coordinate. |
| Locations.GetContext | bakerydemo/locations/models.py:162-166 | It sets 'lat' to the text before the first comma and 'long' to the text between it and any next comma. A text without a comma sets 'lat' to the whole text and then raises IndexError, and 'long' is not set. No other variable changes. |
| Blog.Authors | bakerydemo/blog/models.py:83-91 | One person per relationship row, in row order. |
| Blog.StripEach | bakerydemo/blog/models.py:101-105 | Each URL segment is stripped of its surrounding slashes, in order. |
| Blog.TagUrlShape | bakerydemo/blog/models.py:101-105 | A tag URL is "/" + the stripped parent URL + "/tags/" + the stripped slug. So it starts with '/', and inner slashes of both are kept. |
| Blog.TagUrlUnderPage | bakerydemo/blog/models.py:101-105 | A parent URL "/<path>/" gives "/<path>/tags/<stripped slug>". |
| Blog.TagUrlUnderBlogIndex | bakerydemo/blog/models.py:101-105 | A parent URL "/blog/" gives "/blog/tags/<stripped slug>". |
| Blog.TagUrlUnderRoot | bakerydemo/blog/models.py:101-105 | A parent URL made only of slashes, such as "/", gives "//tags/<stripped slug>", with an empty first segment. |
| Blog.TagUrlEndsWithSlug | bakerydemo/blog/models.py:101-105 | A slug without slashes is the URL's last path segment, unchanged. |
| Blog.GetTags | bakerydemo/blog/models.py:93-106 | It returns the same tag objects in the same order. Each gets the URL built from the parent URL and its own slug. Only the tags' `url` fields change. |
| Blog.ResolveReverse | bakerydemo/blog/models.py:159-160 | Reversing the route for no slug, or for any `\w+` slug, and then resolving the path gives back that argument. |
| Blog.ReverseResolve | bakerydemo/blog/models.py:159-160 | Every path that reaches the tag archive is the reverse of its argument. A captured slug is one or more word characters. |
| Blog.UnroutableSlug | bakerydemo/blog/models.py:159-160 | A slug holding '-' or '.' never reaches the tag archive. |
| Blog.TagArchive | bakerydemo/blog/models.py:161-181 | The view renders iff the slug names a known tag. The render uses the index template and the title "Posts tagged with: <name>". Otherwise it redirects to the index URL. It queues an info message 'There are no blog posts tagged with "<slug>"' iff the argument is a non-empty slug. |
| Blog.TagArchiveByPath | bakerydemo/blog/models.py:159-173 | Through its routes, the view redirects with no message exactly for the path "tags/". For any other routed path, it renders iff the slug is a known tag. |

## Left out

- Blog.TagArchive: the list of posts passed to the template is not modelled. It is a query over live descendants with the tag. The render carries the tag's slug in its place.
- Blog.Authors: a person is an identity only. The fields of the person snippet are not part of this model.
- Locations.GetContext: only the two variables this page adds are modelled. The base context built by the parent class is an input.
- ORM query composition is left out, because it is framework code. This covers `descendant_of`, `live`, `order_by`, `LocationsIndexPage.children`, `LocationsIndexPage.get_context` and `BlogIndexPage.get_context`.
- `LocationPage.operating_hours` and `hours_of_operation.all()` are the given sequence of rows.
- `Tag.objects.get` is a lookup in a map from slug to name. Tag slugs are unique, so it never finds two. A `None` argument finds nothing, because the slug column is never NULL.
- The storage and display of queued messages, and the HTTP responses of `redirect` and `render`, are left out. They appear only as the `Blog.Response` outcome.
- `Page.url` can be `None` for a page outside any site; the model takes the URL as a string.
- The wall clock and time-zone conversion are left out. The weekday and the naive time of day are parameters, and times are whole microseconds.
- `settings.TIME_ZONE` is a parameter.
- `strftime('%a')` is read in the C locale; other locales are not modelled.
- Blog.ResolveReverse, Blog.ReverseResolve: `\w` in the `tags/(\w+)/` route is read as ASCII `[A-Za-z0-9_]`. Django matches route patterns with Unicode word characters, so a slug such as "é" reaches the tag archive in the program but not in the model.
- Python.Upper: only ASCII letters are upper-cased, and the length is kept. Python's `str.upper()` also maps other letters, for example 'ß' to "SS". It is applied only to the C-locale weekday abbreviations, which are ASCII.
- The lat/long grammar uses ASCII digits and ASCII whitespace. Python's Unicode `\d` and `\s`, and `$` matching before a final newline, are not modelled.
- The editing form strips surrounding whitespace before field cleaning. That form layer is not modelled; `Locations.CleanLatLong` is the model field's own cleaning.
- A `datetime.time` at midnight was falsy before Python 3.5. The model uses the later rule, where every time is truthy.
- Editor panels, search fields, page-type restrictions, foreign keys and the page tree are configuration. `LocationPage.__str__` only returns the page title.
- The migrations under `bakerydemo/base/migrations` and `bakerydemo/breads/migrations` declare schema changes only.
- `bakerydemo.base.models` and `bakerydemo.base.blocks` are not part of this model.

## Findings

| source | as written | input that shows it | evidently intended | confidence | as-written member | corrected member |
|---|---|---|---|---|---|---|
| bakerydemo/locations/models.py:64-65 | The closing field is formatted from `opening_time`. | A Monday row 09:00-17:00 renders "MON: 09:00 - 09:00 UTC". A row with only a closing time raises AttributeError. | The closing field shows `closing_time`. | high; not executed | Hours.StrShowsOpeningTwice | Hours.OperatingHoursStrIntended |
| bakerydemo/locations/models.py:151 | Rows are looked up under `strftime('%a').upper()`, which gives TUE and THU. The choices store TUES and THUR. | A TUES row 09:00-17:00 is not open on a Tuesday at 12:00. | Rows are looked up under the weekday's choice code. | high; not executed | Locations.NeverOpenOnTuesdayOrThursday | Locations.IntendedOpensEveryDay |
| bakerydemo/locations/models.py:152-157 | The lookup never reads the "Closed?" flag. | A MON row 09:00-17:00 ticked closed is open on a Monday at 12:00. | A row ticked closed never opens the location. | high; not executed | Locations.ClosedRowStillOpens | Locations.IntendedRespectsClosed |
