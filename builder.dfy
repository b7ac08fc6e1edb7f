/** The fluent builder the service uses to assemble a new book from request fields. */
module Builder {

  import opened Wrappers
  import opened Text
  import opened Books
  import opened Validation

  const TitleRequired := "Title is required"
  const AuthorRequired := "Author is required"
  const IsbnRequired := "ISBN is required"

  /** The builder's own presence checks, in order: title, author, ISBN. */
  function RequiredRules(title: Option<string>, author: Option<string>, isbn: Option<string>): seq<Rule> {
    [ (!IsNullOrBlank(title), TitleRequired),
      (!IsNullOrBlank(author), AuthorRequired),
      (!IsNullOrBlank(isbn), IsbnRequired) ]
  }

  class BookBuilder {
    var title: Option<string>
    var author: Option<string>
    var isbn: Option<string>
    var publicationYear: Option<int>
    var price: Option<real>

    /** Every field starts out null. */
    constructor ()
      ensures title.None? && author.None? && isbn.None? && publicationYear.None? && price.None?
    {
      title, author, isbn, publicationYear, price := None, None, None, None, None;
    }

    method Title(title: Option<string>) returns (self: BookBuilder)
      modifies this
      ensures self == this && this.title == title
      ensures author == old(author) && isbn == old(isbn)
      ensures publicationYear == old(publicationYear) && price == old(price)
    {
      this.title := title;
      self := this;
    }

    method Author(author: Option<string>) returns (self: BookBuilder)
      modifies this
      ensures self == this && this.author == author
      ensures title == old(title) && isbn == old(isbn)
      ensures publicationYear == old(publicationYear) && price == old(price)
    {
      this.author := author;
      self := this;
    }

    method Isbn(isbn: Option<string>) returns (self: BookBuilder)
      modifies this
      ensures self == this && this.isbn == isbn
      ensures title == old(title) && author == old(author)
      ensures publicationYear == old(publicationYear) && price == old(price)
    {
      this.isbn := isbn;
      self := this;
    }

    method PublicationYear(publicationYear: Option<int>) returns (self: BookBuilder)
      modifies this
      ensures self == this && this.publicationYear == publicationYear
      ensures title == old(title) && author == old(author) && isbn == old(isbn) && price == old(price)
    {
      this.publicationYear := publicationYear;
      self := this;
    }

    /** The `BigDecimal` setter. */
    method Price(price: Option<real>) returns (self: BookBuilder)
      modifies this
      ensures self == this && this.price == price
      ensures title == old(title) && author == old(author) && isbn == old(isbn)
      ensures publicationYear == old(publicationYear)
    {
      this.price := price;
      self := this;
    }

    /** A new book with no identifier whose five fields are the builder's current ones. */
    function Build(): (b: Book)
      reads this
      ensures b.id.None?
      ensures b.title == title && b.author == author && b.isbn == isbn
      ensures b.publicationYear == publicationYear && b.price == price
    {
      Book(None, title, author, isbn, publicationYear, price)
    }

    /**
     * Presence checks only: a null or blank title, author or ISBN is refused with that field's
     * message, the first one in that order deciding; on success the same builder is returned.
     */
    method Validate() returns (r: Result<BookBuilder>)
      ensures r.Ok? <==> !IsNullOrBlank(title) && !IsNullOrBlank(author) && !IsNullOrBlank(isbn)
      ensures r.Ok? ==> r.value == this
      ensures r.Err? ==> FirstFailure(RequiredRules(title, author, isbn)) == Fail(r.error)
    {
      var rules := RequiredRules(title, author, isbn);
      if IsNullOrBlank(title) {
        FirstFailureAt(rules, 0);
        return Err(TitleRequired);
      }
      if IsNullOrBlank(author) {
        FirstFailureAt(rules, 1);
        return Err(AuthorRequired);
      }
      if IsNullOrBlank(isbn) {
        FirstFailureAt(rules, 2);
        return Err(IsbnRequired);
      }
      return Ok(this);
    }
  }

  /** The builder's presence checks fail exactly when one of the three fields is null or blank. */
  lemma RequiredRulesFailWhenBlank(title: Option<string>, author: Option<string>, isbn: Option<string>)
    ensures FirstFailure(RequiredRules(title, author, isbn)).Fail?
        <==> IsNullOrBlank(title) || IsNullOrBlank(author) || IsNullOrBlank(isbn)
  {
    var rules := RequiredRules(title, author, isbn);
    if IsNullOrBlank(title) {
      assert !rules[0].0;
    } else if IsNullOrBlank(author) {
      assert !rules[1].0;
    } else if IsNullOrBlank(isbn) {
      assert !rules[2].0;
    } else {
      assert rules[0].0 && rules[1].0 && rules[2].0;
    }
  }

  /** The standard validator reports a missing field exactly when one of the three is null or blank. */
  lemma StandardPresenceFailure(b: Book)
    ensures ValidateStandard(Some(b)) in {Fail(TitleMessage), Fail(AuthorMessage), Fail(IsbnMissingMessage)}
        <==> IsNullOrBlank(b.title) || IsNullOrBlank(b.author) || IsNullOrBlank(b.isbn)
  {
    var o := ValidateStandard(Some(b));
    if !(IsNullOrBlank(b.title) || IsNullOrBlank(b.author) || IsNullOrBlank(b.isbn)) {
      assert o in {Pass, Fail(IsbnFormatMessage), Fail(YearMessage), Fail(PriceMessage)};
    }
  }

  /**
   * The builder's presence checks refuse exactly the books that the standard validator refuses
   * for a missing title, author or ISBN (with different messages); they never look at the ISBN
   * length, the year or the price.
   */
  lemma RequiredRulesMatchStandardPresence(b: Book)
    ensures FirstFailure(RequiredRules(b.title, b.author, b.isbn)).Fail?
        <==> ValidateStandard(Some(b)) in {Fail(TitleMessage), Fail(AuthorMessage), Fail(IsbnMissingMessage)}
  {
    RequiredRulesFailWhenBlank(b.title, b.author, b.isbn);
    StandardPresenceFailure(b);
  }
}
