/** The email rule of the student validator: the pattern `\w+@\w+\.\w+`
    applied with `Pattern.matches`, i.e. to the whole string. Since neither
    `@` nor `.` is a word character, the address has exactly one `@`, no dot
    before it and exactly one dot after it.

    `Split` is a hand-written recognizer returning the three words it
    found; `MatchesPattern` is the declarative reading of the pattern. */
module Email {
  import opened Optional
  import opened Text

  /** An address cut along the pattern: `local@domain.topLevel`. */
  datatype EmailParts = EmailParts(local: string, domain: string, topLevel: string)

  function Render(e: EmailParts): string {
    e.local + "@" + e.domain + "." + e.topLevel
  }

  /** What `\w+` matches. */
  ghost predicate IsWord(w: string) {
    |w| > 0 && AllWordChars(w)
  }

  ghost predicate WellFormed(e: EmailParts) {
    IsWord(e.local) && IsWord(e.domain) && IsWord(e.topLevel)
  }

  /** Declarative reading of the email pattern. */
  ghost predicate MatchesPattern(s: string) {
    exists e :: WellFormed(e) && Render(e) == s
  }

  /** Recognizes `\w+` followed by the separator `sep` at the start of `s`;
      returns the word and what follows the separator. */
  function WordThen(s: string, sep: char): (r: Option<(string, string)>)
    ensures r.Some? ==> IsWord(r.value.0) && s == r.value.0 + [sep] + r.value.1
  {
    var n := LeadingWordChars(s);
    if 0 < n < |s| && s[n] == sep then
      Cut(s, n, 1);
      assert s[n..][..1] == [sep];
      Some((s[..n], s[n + 1..]))
    else None
  }

  /** The recognizer. */
  function Split(s: string): (r: Option<EmailParts>)
    ensures r.Some? ==> WellFormed(r.value) && Render(r.value) == s
  {
    match WordThen(s, '@')
    case None => None
    case Some((local, afterAt)) =>
      match WordThen(afterAt, '.')
      case None => None
      case Some((domain, topLevel)) =>
        if |topLevel| > 0 && AllWordChars(topLevel) then
          RenderNested(EmailParts(local, domain, topLevel));
          Some(EmailParts(local, domain, topLevel))
        else None
  }

  /** `Pattern.matches(patternEmail, s)`. */
  predicate IsEmail(s: string)
    ensures IsEmail(s) ==> MatchesPattern(s)
  {
    var r := Split(s);
    assert r.Some? ==> WellFormed(r.value) && Render(r.value) == s;
    r.Some?
  }

  lemma RenderNested(e: EmailParts)
    ensures Render(e) == e.local + ['@'] + (e.domain + ['.'] + e.topLevel)
  {
    Associative(e.local + "@", e.domain + ".", e.topLevel);
  }

  /** A word followed by a non-word separator is read back exactly. */
  lemma WordThenOf(w: string, sep: char, rest: string)
    requires IsWord(w) && !IsWordChar(sep)
    ensures WordThen(w + [sep] + rest, sep) == Some((w, rest))
  {
    var s := w + [sep] + rest;
    Associative(w, [sep], rest);
    LeadingWordCharsOfWord(w, [sep] + rest);
    assert s[..|w|] == w;
    assert s[|w| + 1..] == rest;
  }

  /** Every well-formed address is recognized, and its three words are recovered. */
  lemma SplitRender(e: EmailParts)
    requires WellFormed(e)
    ensures Split(Render(e)) == Some(e)
  {
    RenderNested(e);
    WordThenOf(e.local, '@', e.domain + ['.'] + e.topLevel);
    WordThenOf(e.domain, '.', e.topLevel);
  }

  /** The recognizer accepts exactly the strings of the pattern. */
  lemma IsEmailCorrect(s: string)
    ensures IsEmail(s) <==> MatchesPattern(s)
  {
    if IsEmail(s) {
      var e := Split(s).value;
      assert WellFormed(e) && Render(e) == s;
    }
    if MatchesPattern(s) {
      var e :| WellFormed(e) && Render(e) == s;
      SplitRender(e);
    }
  }

  /** An address with a two-letter top-level domain. */
  lemma AcceptsSimple()
    ensures IsEmail("a@b.co")
  {
    var e := EmailParts("a", "b", "co");
    assert WellFormed(e);
    assert Render(e) == "a@b.co";
    SplitRender(e);
  }

  /** A dot before the `@` is not allowed. */
  lemma RejectsDottedLocalPart()
    ensures !IsEmail("a.b@c.d")
  {
    var s := "a.b@c.d";
    assert LeadingWordChars(s) == 1 by {
      LeadingWordCharsOfWord("a", s[1..]);
      assert "a" + s[1..] == s;
    }
  }

  /** A second dot after the `@` is not allowed. */
  lemma RejectsTwoDotsInDomain()
    ensures !IsEmail("a@b.c.d")
  {
    var s := "a@b.c.d";
    WordThenOf("a", '@', "b.c.d");
    assert "a" + ['@'] + "b.c.d" == s;
    WordThenOf("b", '.', "c.d");
    assert "b" + ['.'] + "c.d" == "b.c.d";
    assert !IsWordChar("c.d"[1]);
  }
}
