# Kabob store request validation, in Dafny

This project models the request-sanitising and validation layer of the kabob
store's order API (`backend/main.py`) and proves properties of it. It covers:

- the HTTP middleware that screens every request. It refuses a URL that
  holds a suspicious pattern, in any letter case, with 400. It refuses a
  declared body over 1 MiB with 413. A `content-length` that `int()` cannot
  read is ignored.
- the handler that reshapes the framework's validation errors into
  `{field, message, type}` entries under a 422 "Validation error" body.
- `sanitize_string`: NUL removal, truncation and stripping.
- the request models and their validators:
  - `OrderItemCreate`, with its field bounds and UUID check;
  - `OrderCreate`, with the name pattern and whitespace collapsing, the
    blocked e-mail domains with lower-casing, and duplicate item ids;
  - `MenuItemCreate`, with tag stripping and collapsing of its text fields,
    rounding of the price to cents, and the scheme and extension rules for
    the image URL.

  The failures of every field are reported in declaration order, each at
  its field's location.
- the checks that `create_order` makes before touching the database, and the
  endpoint that turns a `ValueError` from them into a 422 whose detail is
  the message.

The Python built-ins the validators rely on are modelled as follows (the
exceptions are listed under "Left out"):

- `str.split()`/`str.strip()` whitespace is the full set that `str.isspace()`
  accepts;
- `int()` skips all `str.isspace()` whitespace except U+001C..U+001F, accepts
  `_` between digits, and raises past 4300 digits (the default limit of
  Python 3.11 and later); only ASCII digits are read;
- `re.sub(r'<[^>]+>', '', v)` is a left-to-right scan;
- `' '.join(v.split())` collapses whitespace;
- `split('@')[1]` takes the piece after the first '@'.

The modules follow the program's structure:

| module | file | models |
|---|---|---|
| `Wrappers` | wrappers.dfy | the `Option` and `Result` values standing for return-or-raise |
| `Text` | text.dfy | whitespace, `strip`, ASCII `lower`, substring search, `replace` of one code point, slicing |
| `PyWords` | words.dfy | `split()` and `' '.join(...)` |
| `Separated` | separated.dfy | `split(d)` and `d.join(...)` for a one-character separator |
| `PyInt` | pyint.dfy | `int(s)` on a header value, and `str(n)` |
| `Markup` | markup.dfy | the tag-stripping substitution |
| `Sanitize` | sanitize.dfy | `sanitize_string` |
| `Failures` | failures.dfy | field failures, their locations and their collection in field order |
| `Constraints` | constraints.dfy | `min_length`, `max_length`, `gt`, `ge`, `le`, `min_items`, `max_items` |
| `OrderModels` | order_models.dfy | `OrderItemCreate`, `OrderCreate` |
| `MenuModels` | menu_models.dfy | `MenuItemCreate` |
| `ErrorHandler` | error_handler.dfy | `validation_exception_handler` |
| `RequestGate` | request_gate.dfy | the `validate_request` middleware |
| `CreateOrder` | create_order.dfy | the checks of `create_order` and `create_order_endpoint` |

## Model

| member | source | states |
|---|---|---|
| RequestGate.ValidateRequest | backend/main.py:50-85 | the pattern loop with its early return and then the size check yield exactly the outcome `Gate` defines: 400 if some pattern occurs, else 413 if the declared length reads as more than 1048576, else pass on |
| RequestGate.FindPattern | backend/main.py:63-69 | the loop over the patterns reports a hit iff some lower-cased pattern occurs in the lower-cased URL |
| RequestGate.GateIgnoresCase | backend/main.py:63-64 | lower-casing the URL first never changes the decision: the comparison ignores letter case |
| RequestGate.EmbeddedPatternRejected | backend/main.py:54-69 | any URL containing one of the nine patterns anywhere is refused with 400, whatever its content-length |
| RequestGate.NulByteRejected | backend/main.py:58 | a URL containing a NUL character is refused with 400 |
| RequestGate.DecimalLengthGate | backend/main.py:72-82 | for a clean URL and a decimal content-length n, the request is refused with 413 iff n > 1048576 and `str(n)` has at most 4300 digits; past 4300 digits `int()` raises and the request is passed on, as it is for n <= 1048576 |
| RequestGate.UnreadableLengthPasses | backend/main.py:73-82 | a clean URL with no content-length, or one `int()` refuses, is passed on |
| RequestGate.NegativeLengthPasses | backend/main.py:75-76 | a negative declared length is never too large |
| PyInt.ParseDecimal | backend/main.py:75 | `int(str(n)) == n` for every natural n of at most 4300 digits; for longer ones `int()` raises |
| PyInt.ParseNegativeDecimal | backend/main.py:75 | `int("-" + str(n)) == -n` for n of at most 4300 digits; for longer ones `int()` raises |
| PyInt.ParseDigitsOnly | backend/main.py:75 | text that starts with a digit (no sign, no surrounding whitespace) reads as its value iff it is digits with single `_` between them and holds at most 4300 digits; otherwise, for text of ASCII characters, `int()` raises |
| PyInt.NoSpaceAroundDigits | backend/main.py:75 | `int()` trims nothing from text that starts with a visible character and ends with a digit |
| PyInt.DecimalValue | backend/main.py:75 | the digits of `str(n)` denote n |
| ErrorHandler.HandleValidationError | backend/main.py:33-48 | status 422, detail "Validation error", and exactly one safe error per input error in the same order, each carrying the error's message and type and the dotted path of its location after the first segment |
| ErrorHandler.SegmentTexts | backend/main.py:41 | one text per location segment, in order: names as they are, list positions in decimal |
| ErrorHandler.FieldPathRecoversLocation | backend/main.py:41 | when the names hold no '.', splitting a `field` on '.' gives back the location segments after the first: the mapping loses nothing |
| ErrorHandler.BodyFailureField | backend/main.py:41 | for a failure reported under the request body, `field` is the failure's own location joined with '.' |
| Separated.SplitOn | backend/main.py:637 | `split(d)` yields at least one piece, no piece holds d, and there are two or more pieces iff d occurs |
| Separated.JoinSplit | backend/main.py:41 | joining the pieces of a split with the separator restores the text |
| Separated.SplitJoinWith | backend/main.py:41 | splitting a join of d-free pieces gives the pieces back |
| Separated.SplitOnPiece | backend/main.py:637 | a d-free piece followed by d is split off first |
| Separated.SplitOnWhole | backend/main.py:637 | text without d splits into itself |
| Text.Strip | backend/main.py:181 | `strip()` removes whitespace-only ends: the result is trimmed, is a slice of the input between whitespace, is empty iff the input is all whitespace, and leaves trimmed text alone |
| Text.Lower | backend/main.py:64 | `lower()` keeps the length and lowers each code point |
| Text.LowerIdempotent | backend/main.py:640 | lower-casing twice is lower-casing once |
| Text.LowerConcat | backend/main.py:64 | lower-casing distributes over concatenation |
| Text.Contains | backend/main.py:64 | substring search finds p iff p occurs at some position |
| Text.RemoveAll | backend/main.py:177 | `replace(c, '')` keeps exactly the code points other than c and never grows the text |
| Text.RemoveAllConcat | backend/main.py:177 | removal distributes over concatenation, so the kept code points stay in their order |
| Text.RemoveAllOne | backend/main.py:177 | a single code point is dropped iff it is c |
| Text.RemoveAllCounts | backend/main.py:177 | every code point other than c is kept as often as it occurs, and c not at all |
| Text.Prefix | backend/main.py:179 | the slice `s[:n]` is a prefix of s of length min(n, len(s)), and for negative n of length max(len(s)+n, 0) |
| Sanitize.Sanitized | backend/main.py:172-182 | the result holds no NUL, fits `max_length`, has no whitespace at either end, never grows, uses only code points of the input, and is empty for empty input |
| Sanitize.SanitizeString | backend/main.py:172-182 | the step-by-step rebinding computes `Sanitized` |
| Sanitize.SanitizeIdempotent | backend/main.py:172-182 | sanitising twice is sanitising once |
| Sanitize.SanitizeKeepsClean | backend/main.py:172-182 | text with no NUL, within the bound and already trimmed is left unchanged |
| PyWords.SplitWords | backend/main.py:563 | `split()` yields whitespace-free words, none iff the text is all whitespace, which together hold exactly the text's non-whitespace code points in order |
| PyWords.SplitWordsAtSpace | backend/main.py:563 | any whitespace code point separates words: `split()` of `a + c + b` is the words of a followed by the words of b |
| PyWords.SplitWordsOfWord | backend/main.py:563 | a whitespace-free non-empty text splits into itself alone |
| PyWords.CollapseSpaces | backend/main.py:563 | `' '.join(v.split())` is single-spaced, keeps the words and the non-whitespace code points, never grows, adds only ' ', and is empty iff the text is all whitespace |
| PyWords.CollapseIdempotent | backend/main.py:629 | collapsing twice is collapsing once |
| PyWords.CollapseFixesSingleSpaced | backend/main.py:629 | single-spaced text is its own collapse |
| PyWords.SplitJoin | backend/main.py:563 | splitting words joined by single spaces gives the words back |
| PyWords.JoinSingleSpaced | backend/main.py:563 | joining words with single spaces gives single-spaced text that starts with a non-whitespace code point |
| PyWords.CollapseBound | backend/main.py:563 | collapsing never makes text longer |
| Markup.StripTags | backend/main.py:561 | the substitution never makes text longer |
| Markup.PlainPrefixKept | backend/main.py:561 | text without '<' in front of the rest is kept as it is, in order, before the stripped rest |
| Markup.LeadingTagDropped | backend/main.py:561 | a leading `<`, one or more code points other than '>', and '>' are removed whole, and the scan resumes after them |
| Markup.StripTagsKeeps | backend/main.py:561 | every code point kept comes from the input |
| Markup.StripTagsTagFree | backend/main.py:561 | no match of `<[^>]+>` survives one pass |
| Markup.StrayOpenerKept | backend/main.py:561 | a '<' followed at once by '>' starts no match: both are kept and the scan resumes after them |
| Markup.TagFreeUnchanged | backend/main.py:561 | text holding no match is left unchanged |
| Markup.StripTagsIdempotent | backend/main.py:561 | stripping twice is stripping once |
| Markup.NoOpenerTagFree | backend/main.py:561 | text without '<' holds no match |
| Constraints.LengthCheck | backend/main.py:550 | `min_length`/`max_length` pass iff the length is within bounds, and otherwise report the bound broken, the lower one first |
| Constraints.MaxLengthCheck | backend/main.py:554 | `max_length` alone passes iff the length is within it |
| Constraints.AboveAtMostCheck | backend/main.py:552 | `gt`/`le` pass iff lower < v <= upper, and a value not above the lower bound is reported as such |
| Constraints.AtLeastAtMostCheck | backend/main.py:607 | `ge`/`le` pass iff lower <= v <= upper, the lower bound being reported first |
| Constraints.ItemCountCheck | backend/main.py:621 | `min_items`/`max_items` pass iff the count is within bounds, too few being reported first |
| Constraints.Report | backend/main.py:619-621 | a check contributes no failure iff it passes, and its failures sit at the field's location |
| Constraints.Reports | backend/main.py:549-554 | one block of failures per field, each at its field's location and empty iff that field's check passes |
| Failures.FlattenEmpty | backend/main.py:618-621 | the collected failures are empty iff every field's block is |
| Failures.FlaggedAt | backend/main.py:618-621 | with blocks at distinct locations, a location carries a failure iff its own block is non-empty |
| Failures.UnderFlags | backend/main.py:621 | placing failures under a segment flags `[segment] + loc` iff they flagged loc |
| Failures.FlattenFlags | backend/main.py:618-621 | the collected failures flag a location iff some block does |
| Failures.FlattenAt | backend/main.py:618-621 | every collected failure sits at one of the fields' locations |
| OrderModels.ValidateName | backend/main.py:623-630 | accepted iff the name is non-empty and every code point is an ASCII letter, whitespace, '-' or an apostrophe; the fixed message otherwise; an accepted name keeps its words, is single-spaced, no longer, made of letters, ' ', '-' and apostrophes, and empty iff it was all whitespace |
| OrderModels.CollapsedNameChars | backend/main.py:626-629 | collapsing a name that matches the pattern leaves only letters, ' ', '-' and apostrophes |
| OrderModels.ValidateNameIdempotent | backend/main.py:623-630 | a non-empty validated name validates to itself |
| OrderModels.EmailDomain | backend/main.py:637 | the text between the first '@' and the next one (or the end) holds no '@' |
| OrderModels.ValidateEmailDomain | backend/main.py:632-640 | refused iff the lower-cased domain is one of the three blocked domains, with the fixed message; otherwise the whole address with its ASCII letters lower-cased |
| OrderModels.EmailDomainOfAddress | backend/main.py:637 | the domain of `local@domain` is `domain` |
| OrderModels.BlockedDomainRefused | backend/main.py:636-639 | an address on a blocked domain, in any letter case, is refused |
| OrderModels.SplitOnLower | backend/main.py:637 | splitting on '@' commutes with lower-casing |
| OrderModels.ValidateEmailDomainIdempotent | backend/main.py:632-640 | a returned address validates again to itself |
| OrderModels.Ids | backend/main.py:645 | the ids of the items, position by position |
| OrderModels.Elements | backend/main.py:646 | `set(ids)` holds exactly the ids |
| OrderModels.SetSizeDetectsRepeats | backend/main.py:646 | `len(set(ids)) <= len(ids)`, with equality iff no id repeats |
| OrderModels.DistinctIds | backend/main.py:645-646 | the ids are distinct iff no two items share an id |
| OrderModels.ValidateItems | backend/main.py:642-648 | refused with the fixed message iff two items share an id; otherwise the list unchanged |
| OrderModels.ValidateUuid | backend/main.py:609-616 | accepted iff the id parses as a UUID, unchanged, with the fixed message otherwise |
| OrderModels.ItemFailures | backend/main.py:603-616 | an item has no failure iff its id is a UUID, its name has 1 to 255 code points, 0 < price <= 10000 and 1 <= quantity <= 100; each failure sits at one of its four fields |
| OrderModels.ItemFailuresPerField | backend/main.py:603-616 | each of the four fields is reported iff it breaks its own rule |
| OrderModels.ValidateOrderItem | backend/main.py:603-616 | an acceptable item is returned unchanged; any other is refused with its non-empty failures |
| OrderModels.ItemAt | backend/main.py:621 | an item's failures, placed under its list position, are empty iff the item is acceptable |
| OrderModels.ItemBlocks | backend/main.py:621 | one block per item, in list order, each empty iff its item is acceptable and holding only failures under its position |
| OrderModels.ItemBlockAt | backend/main.py:621 | the block at position p is exactly the failures of item p, each placed under p |
| OrderModels.ItemFieldFlag | backend/main.py:621 | the items' failures flag field f of item p iff item p's own failures flag f |
| OrderModels.EachItemFieldsReported | backend/main.py:603-621 | a field of the item at position p is reported at p and that field iff it breaks its rule: id not a UUID, name outside 1 to 255 code points, price outside (0, 10000], quantity outside 1 to 100 |
| OrderModels.EachItemFailuresRefused | backend/main.py:621 | every reported item failure names the position of an item that is refused |
| OrderModels.EachRefusedItemReported | backend/main.py:621 | every refused item is reported at its position |
| OrderModels.EachItemFailuresEmpty | backend/main.py:621 | no item is reported iff every item is acceptable |
| OrderModels.ItemsFailures | backend/main.py:621-648 | the `items` field has no failure iff it has 1 to 50 acceptable items with distinct ids; every failure sits under `items` |
| OrderModels.ItemsField | backend/main.py:621-648 | an acceptable list is returned unchanged; any other is refused under `items` |
| OrderModels.NameField | backend/main.py:619-630 | accepted iff 1 to 255 code points matching the pattern, as `validate_name` returns it; refused under `customer_name` otherwise |
| OrderModels.EmailField | backend/main.py:620-640 | accepted iff the address is well formed and not on a blocked domain, lower-cased; refused under `customer_email` otherwise |
| OrderModels.AcceptableByField | backend/main.py:618-648 | an order is acceptable iff its name, its address and its items each are |
| OrderModels.Errors | backend/main.py:618-648 | a field contributes no failure iff it was accepted or refused without failures |
| OrderModels.OrderFailures | backend/main.py:618-648 | every failure sits under one of the three fields |
| OrderModels.ValidateOrder | backend/main.py:618-648 | accepted iff every field is acceptable, giving the collapsed name, the address with ASCII letters lower-cased and the items unchanged; otherwise a non-empty list of failures, each under one of the three fields |
| OrderModels.OrderFailuresPerField | backend/main.py:618-648 | each of the three fields is reported iff it breaks its own rules |
| OrderModels.FieldReported | backend/main.py:618-648 | with failures collected field by field, a field is reported iff its own failures are non-empty |
| OrderModels.ValidateOrderSound | backend/main.py:618-648 | a validated order has a single-spaced name of at most 255 letters, spaces, hyphens and apostrophes, an address without ASCII capitals on an unblocked domain, and 1 to 50 acceptable items with distinct ids |
| MenuModels.ValidateTextField | backend/main.py:556-566 | refused with the fixed message iff nothing but whitespace is left once tags are stripped; otherwise single-spaced, non-empty, no longer than the input, with the words of the stripped text, made of ' ' and input code points |
| MenuModels.PlainTextUnchanged | backend/main.py:556-566 | tag-free, single-spaced, non-empty text is accepted unchanged |
| MenuModels.ValidateUrl | backend/main.py:578-588 | accepted, unchanged, iff absent, empty, or starting with `http://` or `https://` and pointing to an image; otherwise the scheme message iff the scheme is wrong, else the image message |
| MenuModels.FindExtension | backend/main.py:586 | some extension ends the lowered URL or occurs followed by '?' iff the search finds one |
| MenuModels.UpperCaseSchemeRefused | backend/main.py:582-583 | the scheme check is case-sensitive: `HTTPS://...` is refused |
| MenuModels.ExtensionBeforeQueryAccepted | backend/main.py:586 | an https URL with `.png?` before a query is accepted |
| MenuModels.UrlDecisionIgnoresCase | backend/main.py:586 | once the scheme check agrees, the extension check ignores letter case |
| MenuModels.NearestCents | backend/main.py:576 | the nearest whole number of cents, within half a cent |
| MenuModels.Round2 | backend/main.py:576 | `round(v, 2)` gives a whole number of cents within half a cent of v |
| MenuModels.Round2Capped | backend/main.py:573-576 | rounding keeps a price of at most 10000 at most 10000 |
| MenuModels.Round2Positive | backend/main.py:571-576 | a positive price rounds to a positive one iff it is above half a cent |
| MenuModels.ValidatePriceAsWritten | backend/main.py:568-576 | as written: accepted iff 0 < v <= 10000, with the message of the first check broken, and rounded to cents |
| MenuModels.SubCentPriceBecomesZero | backend/main.py:552-576 | a price under half a cent passes `gt=0` and the validator, and is validated to 0.0 |
| MenuModels.ValidatePrice | backend/main.py:568-576 | corrected: an accepted price is a positive whole number of cents, at most 10000, within half a cent of the input |
| MenuModels.PriceFieldAccepts | backend/main.py:552-576 | with the corrected validator the price field accepts exactly 0.005 < v <= 10000 |
| MenuModels.TextField | backend/main.py:550-566 | accepted iff within the length bounds and not blank once tags are stripped, with the cleaned text |
| MenuModels.DescriptionField | backend/main.py:551 | accepted unchanged iff 1 to 1000 code points |
| MenuModels.PriceField | backend/main.py:552-576 | as written: accepted iff 0 < v <= 10000, giving `round(v, 2)`, a whole number of cents in [0, 10000] (0.0 for a price up to half a cent) |
| MenuModels.ImageUrlField | backend/main.py:554-588 | accepted unchanged iff at most 500 code points and acceptable to `validate_url` |
| MenuModels.MenuFieldBlocks | backend/main.py:549-588 | one block per field in declaration order, each at its field and empty iff that field is acceptable (the price iff 0 < v <= 10000) |
| MenuModels.MenuFailures | backend/main.py:549-588 | no failure iff every field is acceptable; every failure sits at one of the five fields |
| MenuModels.ValidateMenuItem | backend/main.py:549-588 | accepted iff every field is acceptable (a price iff 0 < v <= 10000), with cleaned name and category, the description, the price rounded to cents and the URL; otherwise non-empty failures at the five fields |
| MenuModels.MenuFailuresPerField | backend/main.py:549-588 | each of the five fields is reported iff it breaks its own rules; price iff it is outside (0, 10000] |
| MenuModels.SubCentMenuItemAccepted | backend/main.py:549-576 | a menu item priced under half a cent that meets every other rule is accepted with price 0.0 |
| CreateOrder.CreateOrderChecks | backend/main.py:325-338 | refused with "Customer name and email are required" iff the sanitised name or address is empty; else with "Order must contain at least one item" iff there are no items; else with "Invalid total amount" iff the total is outside (0, 100000]; otherwise the sanitised name and address |
| CreateOrder.SubmitOrder | backend/main.py:694-718 | a `ValueError` from the checks becomes a 422 whose detail is exactly its message; otherwise the checks' sanitised, non-empty customer and a total in (0, 100000] go on to storage |
| CreateOrder.LowerPlainAddress | backend/main.py:640 | lower-casing keeps an address free of NUL and whitespace, with its '@' |
| CreateOrder.PlainAddressKept | backend/main.py:329 | re-sanitising an address with no NUL or whitespace, within 255 code points, changes nothing |
| CreateOrder.ValidatedNameKept | backend/main.py:328 | re-sanitising a validated name changes nothing |
| CreateOrder.ValidatedOrderChecks | backend/main.py:328-338 | for a validated order the item check never fires: it is refused for an empty name or for its total, and otherwise passes with the validated name and address |
| CreateOrder.BlankNameRefused | backend/main.py:328-332 | a whitespace-only name passes `validate_name` (lines 626-629) and becomes empty, and the order is refused with 422 "Customer name and email are required", whatever its total |
| CreateOrder.ItemAmount | backend/main.py:606-607 | an acceptable item's price times quantity lies in (0, 1000000] |
| CreateOrder.TotalBounds | backend/main.py:698 | acceptable items total between 0 and 1000000 per item, and more than 0 when there is one |
| CreateOrder.ValidatedTotal | backend/main.py:698 | a validated order totals more than 0 and at most 50000000 |
| CreateOrder.AcceptedOrderReply | backend/main.py:694-718 | end to end, an acceptable order is refused for a blank name, stored with the collapsed name and the address with ASCII letters lower-cased when its total is in (0, 100000], and refused for its total otherwise |
| CreateOrder.ValidOrderOverTotal | backend/main.py:337-338 | one item at price 10000 in quantity 11 passes validation but totals 110000 and is refused with 422 "Invalid total amount" |

## Left out

- The database: `DSQLConnectionManager`, the SQL of `create_order`, and the table set-up, listing and clearing endpoints. They are I/O against a server. `create_order` is modelled up to its last check before the connection is requested.
- The web framework: routing, `HTTPException`, `JSONResponse`, CORS, the start-up hook, the health endpoints, the 501 stub endpoints and all logging. The middleware's `call_next` becomes the `PassOn` outcome. The endpoint's catch-all 500 reply is for database errors, which are not modelled.
- `uuid.UUID` parsing and pydantic's `EmailStr` syntax check are library code. They are parameters: `isUuid` and `emailCheck`, the address the e-mail type hands over or none.
- The messages and error types that pydantic writes for constraint failures are library text. Constraint failures are modelled as `Violation` values naming the bound broken.
- `PyInt.ParseInt` takes the digit limit of `int()` at its default of 4300, as set by Python 3.11 and later (and the 3.10.7 and 3.9.14 releases). Earlier releases have no limit, and `sys.set_int_max_str_digits` can change it; neither is modelled. It also reads ASCII digits only, where `int()` accepts every Unicode decimal digit (`int("١٢٣") == 123`, `int("1２") == 12`). This does not reach `RequestGate.Gate`: header values are decoded as Latin-1, and Latin-1 holds no decimal digit other than '0'..'9'.
- The sample menu data is constant data with no logic.
- `OrderTotal` and `SubmitOrder` use exact numbers. The endpoint sums `price * quantity` in binary floating point, so a sum that lands next to 0 or 100000 may round differently. `SubmitOrder` therefore takes the total as an input.
- `Round2` rounds exact reals, with an exact tie going to the even cent. Python rounds the binary double nearest the input, so inputs that are ties in decimal (0.005, 1.005, ...) may round the other way.
- `Constraints.AboveAtMostCheck`: values are exact reals, so a non-finite float (NaN, and the infinities) is not modelled. The JSON body parser accepts the literal `NaN`, every comparison with NaN is false, and whether the field bounds `gt`/`le` then refuse it depends on the installed pydantic version, which is library code outside this model.
- `MenuModels.ValidatePriceAsWritten`: a NaN price is not modelled. In the source it passes both `v <= 0` and `v > 10000` and `round` returns NaN, so the proved bounds 0 <= price <= 10000 hold for finite prices only.
- `CreateOrder.CreateOrderChecks`: a NaN total is not modelled. In the source `total_amount <= 0 or total_amount > 100000` is false for NaN, so the proved total bounds (0, 100000] hold for finite totals only.
- `Text.Lower` lowers ASCII letters only, where Python's `lower()` lowers every Unicode capital. For the decisions made on lowered text (suspicious patterns, blocked domains, image extensions), all of them ASCII, the difference matters only through code points that lower to ASCII: U+212A KELVIN SIGN becomes 'k' and U+0130 becomes "i" followed by U+0307. Neither can complete a pattern, a blocked domain or an extension.
- `OrderModels.ValidateEmailDomain`: the returned address keeps its non-ASCII capitals, which Python's `lower()` would lower. `EmailStr` admits non-ASCII local parts, so "ÉLODIE@example.com" comes back as "Élodie@example.com" in the model but as "élodie@example.com" from the source.
- `OrderModels.EmailField`: the accepted address is lower-cased for ASCII letters only, so non-ASCII capitals that Python's `lower()` lowers are kept ("ÉLODIE@example.com" gives "Élodie@example.com", not "élodie@example.com"), for the reason given under `Text.Lower`.
- `OrderModels.ValidateOrder`: the address in the validated order keeps its non-ASCII capitals, where the source lowers every capital, because `Text.Lower` lowers ASCII letters only.
- `OrderModels.ValidateOrderSound`: it states only that the validated address holds no ASCII capital, where the source's `lower()` leaves no capital at all, because `Text.Lower` lowers ASCII letters only.
- `CreateOrder.AcceptedOrderReply`: the stored customer's address keeps its non-ASCII capitals, where the source stores it with every capital lowered, because `Text.Lower` lowers ASCII letters only.
- `MenuModels.ValidateTextField`: it does not state that the cleaned text holds no tag. That is proved only for the stripped text before whitespace is collapsed (`Markup.StripTagsTagFree`).
- `OrderModels.ValidateOrder` reports failures field by field, in declaration order. Their text and type are not modelled.
- `CreateOrder.CreateOrderChecks` models the `isinstance(items, list)` test as always true. The endpoint always passes a list.

## Findings

| source | as written | input that shows it | evidently intended | confidence | as-written member | corrected member |
|---|---|---|---|---|---|---|
| backend/main.py:568-576 | `validate_price` checks `v <= 0` and `v > 10000` before `round(v, 2)`, and the field's `gt=0` sees the unrounded value | price 0.001: it passes both checks and is validated to 0.0 | a validated price is positive: the checks apply to the rounded price | not executed | MenuModels.ValidatePriceAsWritten, MenuModels.SubCentPriceBecomesZero | MenuModels.ValidatePrice, MenuModels.PriceFieldAccepts |
