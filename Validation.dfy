/** The field validators UserValidator.isValidUserData and
    BookValidator.isValidBookData: pure predicates over a record. */
module Validation {
  import opened Dto

  /** Unicode's space separators (category Zs) and the line and paragraph
      separators (Zl, Zp): the characters Character.isSpaceChar accepts. */
  predicate IsSpaceChar(c: char)
  {
    || c == ' ' || c == '\U{A0}' || c == '\U{1680}'
    || '\U{2000}' <= c <= '\U{200A}'
    || c == '\U{2028}' || c == '\U{2029}'
    || c == '\U{202F}' || c == '\U{205F}' || c == '\U{3000}'
  }

  /** Java's Character.isWhitespace, as an explicit list of characters. */
  predicate IsWhitespace(c: char)
    ensures IsWhitespace(c) <==>
              || (IsSpaceChar(c) && c != '\U{A0}' && c != '\U{2007}' && c != '\U{202F}')
              || '\t' <= c <= '\r'
              || '\U{1C}' <= c <= '\U{1F}'
  {
    || c == ' '
    || '\t' <= c <= '\r'
    || '\U{1C}' <= c <= '\U{1F}'
    || c == '\U{1680}'
    || '\U{2000}' <= c <= '\U{2006}'
    || '\U{2008}' <= c <= '\U{200A}'
    || c == '\U{2028}' || c == '\U{2029}' || c == '\U{205F}' || c == '\U{3000}'
  }

  /** The scan String.isBlank performs: the index of the first character that
      is not whitespace, or |s| when there is none. */
  function IndexOfNonWhitespace(s: string): (i: nat)
    ensures i <= |s|
    ensures forall k :: 0 <= k < i ==> IsWhitespace(s[k])
    ensures i < |s| ==> !IsWhitespace(s[i])
    decreases |s|
  {
    if s == [] || !IsWhitespace(s[0]) then 0
    else
      var rest := IndexOfNonWhitespace(s[1..]);
      assert forall k :: 1 <= k < 1 + rest ==> s[k] == s[1..][k - 1];
      1 + rest
  }

  /** Java's String.isBlank: the scan reaches the end, that is, the string is
      empty or whitespace only. */
  predicate IsBlank(s: string)
    ensures IsBlank(s) <==> forall i :: 0 <= i < |s| ==> IsWhitespace(s[i])
  {
    IndexOfNonWhitespace(s) == |s|
  }

  /** The "non-null and not blank" test both validators apply to text fields. */
  predicate HasText(t: Option<string>)
    ensures HasText(t) ==> t.Some? && exists i :: 0 <= i < |t.value| && !IsWhitespace(t.value[i])
  {
    t.Some? && !IsBlank(t.value)
  }

  /** isValidUserData: full name and title present and not blank, and
      0 < age < 120 (strict on both ends). */
  predicate IsValidUserData(user: UserDto)
    ensures IsValidUserData(user) ==> user.fullName.Some? && |user.fullName.value| > 0
    ensures IsValidUserData(user) ==> user.title.Some? && |user.title.value| > 0
    ensures IsValidUserData(user) ==> 1 <= user.age <= 119
  {
    var validFullName := HasText(user.fullName);
    var validTitle := HasText(user.title);
    var validAge := user.age > 0 && user.age < 120;
    validFullName && validTitle && validAge
  }

  /** isValidBookData: title and author present and not blank, and a
      positive page count. */
  predicate IsValidBookData(book: BookDto)
    ensures IsValidBookData(book) ==> book.title.Some? && |book.title.value| > 0
    ensures IsValidBookData(book) ==> book.author.Some? && |book.author.value| > 0
    ensures IsValidBookData(book) ==> book.pageCount >= 1
  {
    var validTitle := HasText(book.title);
    var validAuthor := HasText(book.author);
    var validPageCount := book.pageCount > 0;
    validTitle && validAuthor && validPageCount
  }

  /** The age bound is strict at 120 although the documentation says "not
      exceeding 120": 119 passes, 120 and 0 fail, and so does every negative age. */
  lemma UserAgeBoundaries(user: UserDto)
    requires HasText(user.fullName) && HasText(user.title)
    ensures IsValidUserData(user.(age := 119))
    ensures IsValidUserData(user.(age := 1))
    ensures !IsValidUserData(user.(age := 120))
    ensures forall age :: age <= 0 ==> !IsValidUserData(user.(age := age))
  {
  }

  /** An absent, empty or whitespace-only full name or title is rejected. */
  lemma BlankUserTextRejected(user: UserDto)
    requires !HasText(user.fullName) || !HasText(user.title)
    ensures !IsValidUserData(user)
  {
  }

  /** The user check looks only at full name, title and age. */
  lemma UserValidatorIgnoresId(user: UserDto, id: Option<int>)
    ensures IsValidUserData(user.(id := id)) == IsValidUserData(user)
  {
  }

  /** Page count 0 is rejected and 1 accepted. */
  lemma BookPageCountBoundaries(book: BookDto)
    requires HasText(book.title) && HasText(book.author)
    ensures !IsValidBookData(book.(pageCount := 0))
    ensures IsValidBookData(book.(pageCount := 1))
  {
  }

  /** An absent, empty or whitespace-only title or author is rejected. */
  lemma BlankBookTextRejected(book: BookDto)
    requires !HasText(book.title) || !HasText(book.author)
    ensures !IsValidBookData(book)
  {
  }

  /** The book check ignores id and owner. */
  lemma BookValidatorIgnoresIds(book: BookDto, id: Option<int>, userId: Option<int>)
    ensures IsValidBookData(book.(id := id, userId := userId)) == IsValidBookData(book)
  {
  }

  /** Concrete blank and non-blank strings. */
  lemma BlankExamples()
    ensures IsBlank("") && IsBlank(" \t\n") && IsBlank("\U{3000}")
    ensures !IsBlank(" a ") && !IsBlank("\U{A0}")
  {
    assert " a "[1] == 'a';
    assert "\U{A0}"[0] == '\U{A0}';
  }
}
