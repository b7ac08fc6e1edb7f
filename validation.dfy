/**
 * The two rule sets a book is checked against before it is written: the standard one, an
 * ordered chain of field checks that stops at the first failure, and the update one, whose
 * source is not part of this model. The factory picks one by a case-insensitive name.
 */
module Validation {

  import opened Wrappers
  import opened Text
  import opened Books

  const NullBookMessage := "Book cannot be null"
  const TitleMessage := "Book title cannot be null or empty"
  const AuthorMessage := "Book author cannot be null or empty"
  const IsbnMissingMessage := "Book ISBN cannot be null or empty"
  const IsbnFormatMessage := "Invalid ISBN format"
  const YearMessage := "Publication year must be between 1000 and 2030"
  const PriceMessage := "Book price cannot be negative"

  const MinYear := 1000
  const MaxYear := 2030

  /** A check paired with the message reported when it fails. */
  type Rule = (bool, string)

  /** The outcome of an ordered rule list: the message of the first rule that fails, if any. */
  function FirstFailure(rules: seq<Rule>): (r: Outcome)
    ensures r.Pass? <==> forall i :: 0 <= i < |rules| ==> rules[i].0
    ensures r.Fail? ==>
      exists i :: 0 <= i < |rules| && !rules[i].0 && r.error == rules[i].1
                  && forall j :: 0 <= j < i ==> rules[j].0
  {
    if rules == [] then Pass
    else if !rules[0].0 then Fail(rules[0].1)
    else
      var rest := FirstFailure(rules[1..]);
      assert forall i :: 1 <= i < |rules| ==> rules[i] == rules[1..][i - 1];
      rest
  }

  /** A rule list whose first failing rule is at `k` reports exactly that rule's message. */
  lemma {:induction false} FirstFailureAt(rules: seq<Rule>, k: nat)
    requires k < |rules| && !rules[k].0
    requires forall j :: 0 <= j < k ==> rules[j].0
    ensures FirstFailure(rules) == Fail(rules[k].1)
  {
    if k > 0 {
      FirstFailureAt(rules[1..], k - 1);
    }
  }

  /**
   * ISBN format: the raw text, every `-` removed, is 10 or 13 UTF-16 units long (`String.length()`);
   * nothing else is checked. A character above U+FFFF counts twice.
   */
  function IsValidIsbn(isbn: string): (ok: bool)
    ensures ok <==> Utf16Length(isbn) - multiset(isbn)['-'] in {10, 13}
    ensures (forall i :: 0 <= i < |isbn| ==> UnitWidth(isbn[i]) == 1) ==>
      (ok <==> |isbn| - multiset(isbn)['-'] in {10, 13})
  {
    RemoveCharUtf16Length(isbn, '-');
    var clean := RemoveChar(isbn, '-');
    Utf16Length(clean) == 10 || Utf16Length(clean) == 13
  }

  /**
   * Nine one-unit characters other than `-` followed by one character above U+FFFF, such as
   * "123456789" and U+1F600: ten characters, but eleven UTF-16 units, so the format check refuses it.
   */
  lemma AstralCharacterCountsTwice(s: string)
    requires |s| == 10 && UnitWidth(s[9]) == 2
    requires forall i :: 0 <= i < 9 ==> s[i] != '-' && UnitWidth(s[i]) == 1
    ensures !IsValidIsbn(s)
  {
    assert s == s[..9] + s[9..];
    Utf16LengthAppend(s[..9], s[9..]);
    assert Utf16Length(s[9..]) == 2;
    assert '-' !in multiset(s);
  }

  /** What the standard rule set accepts, stated as one conjunction. */
  predicate SatisfiesStandardRules(b: Book) {
    && !IsNullOrBlank(b.title)
    && !IsNullOrBlank(b.author)
    && !IsNullOrBlank(b.isbn)
    && IsValidIsbn(b.isbn.value)
    && (b.publicationYear.Some? ==> MinYear <= b.publicationYear.value <= MaxYear)
    && (b.price.Some? ==> b.price.value >= 0.0)
  }

  /** The standard checks in the order the validator applies them, each with its own message. */
  function StandardRules(b: Book): seq<Rule> {
    [ (!IsNullOrBlank(b.title), TitleMessage),
      (!IsNullOrBlank(b.author), AuthorMessage),
      (!IsNullOrBlank(b.isbn), IsbnMissingMessage),
      (b.isbn.None? || IsValidIsbn(b.isbn.value), IsbnFormatMessage),
      (b.publicationYear.None? || MinYear <= b.publicationYear.value <= MaxYear, YearMessage),
      (b.price.None? || b.price.value >= 0.0, PriceMessage) ]
  }

  /** `StandardBookValidator.validate`: passes exactly the books that satisfy every rule. */
  function ValidateStandard(book: Option<Book>): (r: Outcome)
    ensures book.None? ==> r == Fail(NullBookMessage)
    ensures r.Pass? <==> book.Some? && SatisfiesStandardRules(book.value)
  {
    match book
    case None => Fail(NullBookMessage)
    case Some(b) =>
      if IsNullOrBlank(b.title) then Fail(TitleMessage)
      else if IsNullOrBlank(b.author) then Fail(AuthorMessage)
      else if IsNullOrBlank(b.isbn) then Fail(IsbnMissingMessage)
      else if !IsValidIsbn(b.isbn.value) then Fail(IsbnFormatMessage)
      else if b.publicationYear.Some? && (b.publicationYear.value < MinYear || b.publicationYear.value > MaxYear) then
        Fail(YearMessage)
      else if b.price.Some? && b.price.value < 0.0 then Fail(PriceMessage)
      else Pass
  }

  /** When rule `k` is the first standard rule to fail, the validator reports its message. */
  lemma FirstFailingStandardRule(b: Book, k: nat)
    requires k < 6 && !StandardRules(b)[k].0
    requires forall j :: 0 <= j < k ==> StandardRules(b)[j].0
    ensures ValidateStandard(Some(b)) == Fail(StandardRules(b)[k].1)
  {
    var rules := StandardRules(b);
    assert k > 0 ==> rules[0].0;
    assert k > 1 ==> rules[1].0;
    assert k > 2 ==> rules[2].0;
    assert k > 3 ==> rules[3].0;
    assert k > 4 ==> rules[4].0;
  }

  /**
   * The standard validator reports the message of the first failing rule in the order title,
   * author, ISBN presence, ISBN format, year, price: an earlier failure hides every later one.
   */
  lemma ValidateStandardFollowsRuleOrder(b: Book)
    ensures ValidateStandard(Some(b)) == FirstFailure(StandardRules(b))
  {
    var rules := StandardRules(b);
    var o := FirstFailure(rules);
    if o.Fail? {
      var k :| 0 <= k < |rules| && !rules[k].0 && o.error == rules[k].1
               && forall j :: 0 <= j < k ==> rules[j].0;
      FirstFailingStandardRule(b, k);
      FirstFailureAt(rules, k);
    } else {
      assert rules[0].0 && rules[1].0 && rules[2].0 && rules[3].0 && rules[4].0 && rules[5].0;
    }
  }

  /** The two validators the factory can hand out. */
  datatype ValidatorKind = StandardValidator | UpdateValidator

  const UnknownValidatorPrefix := "Unknown validator type: "

  /** `BookValidatorFactory.getValidator`: a case-insensitive lookup; any other name is an error naming the key as given. */
  function GetValidator(validatorType: string): (r: Result<ValidatorKind>)
    ensures r == Ok(StandardValidator) <==> MatchesIgnoringCase(validatorType, "standard")
    ensures r == Ok(UpdateValidator) <==> MatchesIgnoringCase(validatorType, "update")
    ensures r.Err? ==> r.error == UnknownValidatorPrefix + validatorType
  {
    ToLowerMatches(validatorType, "standard");
    ToLowerMatches(validatorType, "update");
    var key := ToLower(validatorType);
    if key == "standard" then Ok(StandardValidator)
    else if key == "update" then Ok(UpdateValidator)
    else Err(UnknownValidatorPrefix + validatorType)
  }

  /**
   * Runs the chosen validator. The update validator's source is not part of this model, so its
   * verdict is the parameter `updateRule`.
   */
  function ApplyValidator(kind: ValidatorKind, updateRule: Book -> Outcome, b: Book): (r: Outcome)
    ensures kind == StandardValidator ==> (r.Pass? <==> SatisfiesStandardRules(b))
    ensures kind == StandardValidator && r.Fail? ==>
      r.error in {TitleMessage, AuthorMessage, IsbnMissingMessage, IsbnFormatMessage, YearMessage, PriceMessage}
    ensures kind == UpdateValidator ==> r == updateRule(b)
  {
    match kind
    case StandardValidator => ValidateStandard(Some(b))
    case UpdateValidator => updateRule(b)
  }
}
