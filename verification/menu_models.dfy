/**
 * The request model of a new menu item (`MenuItemCreate`): name,
 * description, price, category and an optional image URL, each with its
 * declared constraints and then its validator. As for orders, fields are
 * checked in declaration order, the failures of every field are collected,
 * and a validator only runs on a value that met the field's constraints.
 */
module MenuModels {
  import opened Wrappers
  import opened Text
  import opened PyWords
  import opened Failures
  import opened Constraints
  import opened Markup

  datatype MenuItem = MenuItem(name: string, description: string, price: real, category: string, imageUrl: Option<string>)

  const EmptyTextMessage := "Field cannot be empty after sanitization"
  const PositiveMessage := "Price must be positive"
  const PriceCapMessage := "Price exceeds maximum allowed value"
  const SchemeMessage := "Image URL must start with http:// or https://"
  const ImageMessage := "URL must point to an image file"

  const ImageExtensions: seq<string> := [".jpg", ".jpeg", ".png", ".gif", ".webp", ".svg"]

  const MaxNameLength := 255
  const MaxDescriptionLength := 1000
  const MaxCategoryLength := 100
  const MaxUrlLength := 500
  const MaxPrice := 10000.0

  // ---------------------------------------------------------------- text

  /**
   * `validate_text_fields`, on `name` and `category`: tags removed, then
   * whitespace collapsed; refused when nothing is left. The accepted text
   * is single-spaced, never longer than the input, made of the input's own
   * code points and ' ', and has the words of the tag-free text.
   */
  function ValidateTextField(v: string): (r: Result<string, string>)
    ensures r.Success? <==> !AllSpace(StripTags(v))
    ensures r.Failure? ==> r.error == EmptyTextMessage
    ensures r.Success? ==> r.value != [] && SingleSpaced(r.value) && |r.value| <= |v|
    ensures r.Success? ==> SplitWords(r.value) == SplitWords(StripTags(v))
    ensures r.Success? ==> forall i :: 0 <= i < |r.value| ==> r.value[i] == ' ' || r.value[i] in v
  {
    var stripped := StripTags(v);
    var collapsed := CollapseSpaces(stripped);
    if collapsed == [] then
      Failure(EmptyTextMessage)
    else
      KeptFromInput(v, collapsed);
      Success(collapsed)
  }

  lemma KeptFromInput(v: string, collapsed: string)
    requires collapsed == CollapseSpaces(StripTags(v))
    ensures forall i :: 0 <= i < |collapsed| ==> collapsed[i] == ' ' || collapsed[i] in v
  {
    forall i | 0 <= i < |collapsed| && collapsed[i] != ' ' ensures collapsed[i] in v {
      StripTagsKeeps(v, collapsed[i]);
    }
  }

  /** Text holding no tag and already single-spaced passes the validator unchanged. */
  lemma PlainTextUnchanged(v: string)
    requires TagFree(v) && SingleSpaced(v) && v != []
    ensures ValidateTextField(v) == Success(v)
  {
    TagFreeUnchanged(v);
    CollapseFixesSingleSpaced(v);
  }

  // ---------------------------------------------------------------- url

  /** `v.startswith(('http://', 'https://'))`, case-sensitive. */
  predicate WebScheme(v: string) {
    StartsWith(v, "http://") || StartsWith(v, "https://")
  }

  /** Some extension in `exts` ends `lowered` or occurs in it followed by '?'. */
  predicate AnyExtension(lowered: string, exts: seq<string>) {
    exists k :: 0 <= k < |exts| && (EndsWith(lowered, exts[k]) || Contains(lowered, exts[k] + "?"))
  }

  /** The image-extension test of `validate_url`, on the lower-cased URL. */
  predicate PointsToImage(v: string) {
    AnyExtension(Lower(v), ImageExtensions)
  }

  /**
   * `validate_url`: no URL, or an empty one, is accepted as it is; any
   * other must start with `http://` or `https://` and name an image file,
   * the scheme being checked first. An accepted URL is returned unchanged.
   */
  function ValidateUrl(v: Option<string>): (r: Result<Option<string>, string>)
    ensures r.Success? <==> v.None? || v.value == [] || (WebScheme(v.value) && PointsToImage(v.value))
    ensures r.Success? ==> r.value == v
    ensures r.Failure? ==> v.Some? && v.value != []
    ensures r.Failure? ==> (r.error == SchemeMessage <==> !WebScheme(v.value))
    ensures r.Failure? ==> (r.error == ImageMessage <==> WebScheme(v.value))
  {
    if v.None? || v.value == [] then
      Success(v)
    else if !WebScheme(v.value) then
      Failure(SchemeMessage)
    else if !FindExtension(Lower(v.value), ImageExtensions) then
      Failure(ImageMessage)
    else
      Success(v)
  }

  /** The `any(...)` over the extensions, one extension at a time. */
  function FindExtension(lowered: string, exts: seq<string>): (found: bool)
    ensures found <==> AnyExtension(lowered, exts)
    decreases |exts|
  {
    if exts == [] then
      false
    else if EndsWith(lowered, exts[0]) || Contains(lowered, exts[0] + "?") then
      true
    else
      var rest := FindExtension(lowered, exts[1..]);
      assert AnyExtension(lowered, exts) <==> AnyExtension(lowered, exts[1..]) by {
        if AnyExtension(lowered, exts) {
          var k :| 0 <= k < |exts| && (EndsWith(lowered, exts[k]) || Contains(lowered, exts[k] + "?"));
          assert k > 0 && exts[k] == exts[1..][k - 1];
        }
        if AnyExtension(lowered, exts[1..]) {
          var k :| 0 <= k < |exts[1..]| && (EndsWith(lowered, exts[1..][k]) || Contains(lowered, exts[1..][k] + "?"));
          assert exts[1..][k] == exts[k + 1];
        }
      }
      rest
  }

  /** The scheme test is case-sensitive: an upper-case scheme is refused whatever follows. */
  lemma UpperCaseSchemeRefused(rest: string)
    ensures ValidateUrl(Some("HTTPS://" + rest)) == Failure(SchemeMessage)
  {
    var v := "HTTPS://" + rest;
    assert v[..7] != "http://" && v[..8] != "https://" by {
      assert v[0] == 'H';
    }
  }

  /** An image extension before a '?' anywhere in the URL passes the image test, whatever the path ends with. */
  lemma ExtensionBeforeQueryAccepted(host: string, rest: string)
    ensures ValidateUrl(Some("https://" + host + ".png?" + rest)).Success?
  {
    var v := "https://" + host + ".png?" + rest;
    assert v[..8] == "https://";
    var lowered := Lower(v);
    var at := 8 + |host|;
    LowerConcat("https://" + host, ".png?" + rest);
    LowerConcat(".png?", rest);
    assert Lower(".png?") == ".png?";
    assert lowered[at..at + 5] == ".png?";
    assert OccursAt(lowered, ImageExtensions[2] + "?", at);
  }

  /** The image test ignores case: URLs with the same scheme test that lower-case alike are treated alike. */
  lemma UrlDecisionIgnoresCase(u: string, w: string)
    requires Lower(u) == Lower(w) && (WebScheme(u) <==> WebScheme(w)) && (u == [] <==> w == [])
    ensures ValidateUrl(Some(u)) == (if ValidateUrl(Some(w)).Success? then Success(Some(u)) else ValidateUrl(Some(w)))
  {
  }

  // ---------------------------------------------------------------- price

  /** A whole number of cents. */
  predicate Cents(p: real) {
    (p * 100.0).Floor as real == p * 100.0
  }

  /** The whole number of cents nearest `v`, a tie going to the even one. */
  function NearestCents(v: real): (n: int)
    ensures -0.5 <= n as real - v * 100.0 <= 0.5
  {
    var x := v * 100.0;
    var k := x.Floor;
    if x - k as real < 0.5 then k
    else if x - k as real > 0.5 then k + 1
    else if k % 2 == 0 then k
    else k + 1
  }

  /** `round(v, 2)` on exact reals: a whole number of cents within half a cent of `v`. */
  function Round2(v: real): (r: real)
    ensures Cents(r)
    ensures -0.005 <= r - v <= 0.005
  {
    var n := NearestCents(v);
    WholeCents(n);
    n as real / 100.0
  }

  /** A whole number of cents, written in units, is a whole number of cents. */
  lemma WholeCents(n: int)
    ensures Cents(n as real / 100.0)
  {
    assert (n as real / 100.0) * 100.0 == n as real;
  }

  /** Rounding keeps a price of at most 10000 at most 10000. */
  lemma Round2Capped(v: real)
    requires v <= MaxPrice
    ensures Round2(v) <= MaxPrice
  {
  }

  /** Rounding leaves a positive price positive exactly when it is above half a cent. */
  lemma Round2Positive(v: real)
    requires 0.0 < v
    ensures Round2(v) > 0.0 <==> v > 0.005
  {
  }

  /**
   * `validate_price` as written: the sign and cap checks, then rounding to
   * cents. The checks are made before rounding, so a positive price under
   * half a cent is accepted and becomes 0.
   */
  function ValidatePriceAsWritten(v: real): (r: Result<real, string>)
    ensures r.Success? <==> 0.0 < v <= MaxPrice
    ensures r.Failure? ==> r.error == (if v <= 0.0 then PositiveMessage else PriceCapMessage)
    ensures r.Success? ==> Cents(r.value) && -0.005 <= r.value - v <= 0.005
  {
    if v <= 0.0 then Failure(PositiveMessage)
    else if v > MaxPrice then Failure(PriceCapMessage)
    else Success(Round2(v))
  }

  /** As written, a price under half a cent meets `gt=0` and is validated to 0.0. */
  lemma SubCentPriceBecomesZero(v: real)
    requires 0.0 < v < 0.005
    ensures AboveAtMostCheck(v, 0.0, MaxPrice).None?
    ensures ValidatePriceAsWritten(v) == Success(0.0)
  {
  }

  /**
   * `validate_price` with the checks made on the rounded price, so that an
   * accepted price keeps the field's declared bounds `gt=0, le=10000`.
   */
  function ValidatePrice(v: real): (r: Result<real, string>)
    ensures r.Success? ==> 0.0 < r.value <= MaxPrice && Cents(r.value)
    ensures r.Success? ==> -0.005 <= r.value - v <= 0.005
    ensures r.Failure? ==> r.error == PositiveMessage || r.error == PriceCapMessage
  {
    var rounded := Round2(v);
    if rounded <= 0.0 then Failure(PositiveMessage)
    else if rounded > MaxPrice then Failure(PriceCapMessage)
    else Success(rounded)
  }

  /** With its constraints, the corrected price field accepts exactly the prices above half a cent and at most 10000. */
  lemma PriceFieldAccepts(v: real)
    ensures AboveAtMostCheck(v, 0.0, MaxPrice).None? && ValidatePrice(v).Success? <==> 0.005 < v <= MaxPrice
  {
    if 0.0 < v <= MaxPrice {
      Round2Positive(v);
      Round2Capped(v);
    }
  }

  // ---------------------------------------------------------------- item

  /** A field's own rule as a single violation: a constraint it broke, or its validator's message. */
  function Problem<T>(r: Result<T, Violation>): (check: Option<Violation>)
    ensures check.None? <==> r.Success?
  {
    if r.Success? then None else Some(r.error)
  }

  /** A validator's refusal as a violation. */
  function Refusal<T>(r: Result<T, string>): (r': Result<T, Violation>)
    ensures r'.Success? <==> r.Success?
    ensures r.Success? ==> r'.value == r.value
  {
    if r.Success? then Success(r.value) else Failure(ValueError(r.error))
  }

  /** The rules of `name` and `category`: the length bounds, and some text left once tags and whitespace are gone. */
  predicate AcceptableText(v: string, maxLength: nat) {
    1 <= |v| <= maxLength && !AllSpace(StripTags(v))
  }

  predicate AcceptableDescription(v: string) {
    1 <= |v| <= MaxDescriptionLength
  }

  /** The rules of `price`: `gt=0` and `le=10000`, which `validate_price` repeats before rounding. */
  predicate AcceptablePrice(v: real) {
    0.0 < v <= MaxPrice
  }

  /** The rules of `image_url`: absent, or at most 500 code points and accepted by `validate_url`. */
  predicate AcceptableImageUrl(v: Option<string>) {
    v.None? || (|v.value| <= MaxUrlLength && ValidateUrl(v).Success?)
  }

  /** `name` and `category`: the length bounds, then `validate_text_fields`. */
  function TextField(v: string, maxLength: nat): (r: Result<string, Violation>)
    ensures r.Success? <==> AcceptableText(v, maxLength)
    ensures r.Success? ==> r.value == ValidateTextField(v).value
  {
    var length := LengthCheck(v, 1, maxLength);
    if length.Some? then Failure(length.value) else Refusal(ValidateTextField(v))
  }

  /** `description`: the length bounds only; it has no validator, so its markup is kept. */
  function DescriptionField(v: string): (r: Result<string, Violation>)
    ensures r.Success? <==> AcceptableDescription(v)
    ensures r.Success? ==> r.value == v
  {
    var length := LengthCheck(v, 1, MaxDescriptionLength);
    if length.Some? then Failure(length.value) else Success(v)
  }

  /**
   * `price`: `gt=0, le=10000`, then `validate_price` as written. A price
   * of at most half a cent is accepted and rounded to 0.0.
   */
  function PriceField(v: real): (r: Result<real, Violation>)
    ensures r.Success? <==> AcceptablePrice(v)
    ensures r.Success? ==> r.value == Round2(v) && Cents(r.value) && 0.0 <= r.value <= MaxPrice
  {
    var bounds := AboveAtMostCheck(v, 0.0, MaxPrice);
    if bounds.Some? then Failure(bounds.value) else Refusal(ValidatePriceAsWritten(v))
  }

  /** `image_url`: absent, or at most 500 code points and then `validate_url`. */
  function ImageUrlField(v: Option<string>): (r: Result<Option<string>, Violation>)
    ensures r.Success? <==> AcceptableImageUrl(v)
    ensures r.Success? ==> r.value == v
  {
    if v.None? then
      Success(None)
    else
      var length := MaxLengthCheck(v.value, MaxUrlLength);
      if length.Some? then Failure(length.value) else Refusal(ValidateUrl(v))
  }

  /** A menu item every rule of `MenuItemCreate` accepts. */
  predicate AcceptableMenuItem(raw: MenuItem) {
    && AcceptableText(raw.name, MaxNameLength)
    && AcceptableDescription(raw.description)
    && AcceptablePrice(raw.price)
    && AcceptableText(raw.category, MaxCategoryLength)
    && AcceptableImageUrl(raw.imageUrl)
  }

  /** The failures of the five fields, one block per field in declaration order. */
  function MenuFieldBlocks(raw: MenuItem): (blocks: seq<seq<FieldFailure>>)
    ensures BlocksAt(blocks, MenuLocs)
    ensures blocks[0] == [] <==> AcceptableText(raw.name, MaxNameLength)
    ensures blocks[1] == [] <==> AcceptableDescription(raw.description)
    ensures blocks[2] == [] <==> AcceptablePrice(raw.price)
    ensures blocks[3] == [] <==> AcceptableText(raw.category, MaxCategoryLength)
    ensures blocks[4] == [] <==> AcceptableImageUrl(raw.imageUrl)
  {
    Reports(MenuLocs, [ Problem(TextField(raw.name, MaxNameLength)),
                        Problem(DescriptionField(raw.description)),
                        Problem(PriceField(raw.price)),
                        Problem(TextField(raw.category, MaxCategoryLength)),
                        Problem(ImageUrlField(raw.imageUrl)) ])
  }

  /** The locations of the five fields, in declaration order. */
  const MenuLocs: seq<seq<LocSegment>> :=
    [[Key("name")], [Key("description")], [Key("price")], [Key("category")], [Key("image_url")]]

  lemma MenuLocsDistinct()
    ensures DistinctLocs(MenuLocs)
  {
  }

  /** The failures of a menu item, field by field. */
  function MenuFailures(raw: MenuItem): (fs: seq<FieldFailure>)
    ensures fs == [] <==> AcceptableMenuItem(raw)
    ensures forall f :: f in fs ==> f.loc in MenuLocs
  {
    var blocks := MenuFieldBlocks(raw);
    FiveBlocksEmpty(blocks);
    FlattenAt(blocks, MenuLocs);
    Flatten(blocks)
  }

  /**
   * `MenuItemCreate`: an accepted item has its name and category cleaned,
   * its description as given, its price rounded to cents and its URL as
   * given; a refused one carries at least one failure, each located at one
   * of the five fields.
   */
  function ValidateMenuItem(raw: MenuItem): (r: Result<MenuItem, seq<FieldFailure>>)
    ensures r.Success? <==> AcceptableMenuItem(raw)
    ensures r.Success? ==> r.value == MenuItem(ValidateTextField(raw.name).value, raw.description,
                                             Round2(raw.price), ValidateTextField(raw.category).value, raw.imageUrl)
    ensures r.Failure? ==> r.error != [] && forall f :: f in r.error ==> f.loc in MenuLocs
  {
    var name := TextField(raw.name, MaxNameLength);
    var description := DescriptionField(raw.description);
    var price := PriceField(raw.price);
    var category := TextField(raw.category, MaxCategoryLength);
    var imageUrl := ImageUrlField(raw.imageUrl);
    if name.Success? && description.Success? && price.Success? && category.Success? && imageUrl.Success? then
      Success(MenuItem(name.value, description.value, price.value, category.value, imageUrl.value))
    else
      Failure(MenuFailures(raw))
  }

  /** Each field of a menu item is reported exactly when it breaks its own rules. */
  lemma MenuFailuresPerField(raw: MenuItem)
    ensures var fs := MenuFailures(raw);
      && (Flags(fs, [Key("name")]) <==> !AcceptableText(raw.name, MaxNameLength))
      && (Flags(fs, [Key("description")]) <==> !AcceptableDescription(raw.description))
      && (Flags(fs, [Key("price")]) <==> !AcceptablePrice(raw.price))
      && (Flags(fs, [Key("category")]) <==> !AcceptableText(raw.category, MaxCategoryLength))
      && (Flags(fs, [Key("image_url")]) <==> !AcceptableImageUrl(raw.imageUrl))
  {
    var blocks := MenuFieldBlocks(raw);
    assert MenuFailures(raw) == Flatten(blocks);
    MenuLocsDistinct();
    FlaggedAt(blocks, MenuLocs, 0);
    FlaggedAt(blocks, MenuLocs, 1);
    FlaggedAt(blocks, MenuLocs, 2);
    FlaggedAt(blocks, MenuLocs, 3);
    FlaggedAt(blocks, MenuLocs, 4);
  }

  /**
   * As written, a menu item priced under half a cent that meets every other
   * rule is accepted, with its price validated to 0.0.
   */
  lemma SubCentMenuItemAccepted(raw: MenuItem)
    requires AcceptableText(raw.name, MaxNameLength) && AcceptableDescription(raw.description)
    requires AcceptableText(raw.category, MaxCategoryLength) && AcceptableImageUrl(raw.imageUrl)
    requires 0.0 < raw.price < 0.005
    ensures ValidateMenuItem(raw).Success? && ValidateMenuItem(raw).value.price == 0.0
  {
    SubCentPriceBecomesZero(raw.price);
  }
}
