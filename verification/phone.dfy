/** The phone rule of the student validator: the pattern
    `(\+\d{2})? *\d{3} *\d{3} *\d{2} *\d{2}$` applied with `Pattern.matches`,
    i.e. to the whole string. Because the pattern must consume the whole
    input, its trailing `$` adds nothing.

    `Split` is a hand-written recognizer that also returns the pieces it
    found; `MatchesPattern` is the declarative reading of the pattern (the
    string is the rendering of some well-formed set of pieces). */
module Phone {
  import opened Optional
  import opened Text

  /** The digit-group sizes after the optional country code: 3, 3, 2, 2. */
  const GroupSizes: seq<nat> := [3, 3, 2, 2]

  /** Length of the optional country code that follows the `+`. */
  const CountryCodeLength: nat := 2

  /** One ` *\d{k}` piece of the pattern: `gap` spaces then the digits. */
  datatype Group = Group(gap: nat, digits: string)

  /** A phone number cut along the pattern. */
  datatype PhoneParts = PhoneParts(countryCode: Option<string>, groups: seq<Group>)

  function RenderGroups(gs: seq<Group>): string {
    if |gs| == 0 then "" else Spaces(gs[0].gap) + gs[0].digits + RenderGroups(gs[1..])
  }

  function Render(p: PhoneParts): string {
    match p.countryCode
    case Some(cc) => "+" + cc + RenderGroups(p.groups)
    case None => RenderGroups(p.groups)
  }

  /** The groups have the prescribed sizes and hold only digits. */
  ghost predicate GroupsFit(gs: seq<Group>, sizes: seq<nat>) {
    && |gs| == |sizes|
    && forall i :: 0 <= i < |gs| ==> |gs[i].digits| == sizes[i] && AllDigits(gs[i].digits)
  }

  ghost predicate AllPositive(sizes: seq<nat>) {
    forall i :: 0 <= i < |sizes| ==> sizes[i] > 0
  }

  ghost predicate WellFormed(p: PhoneParts) {
    && (p.countryCode.Some? ==> |p.countryCode.value| == CountryCodeLength && AllDigits(p.countryCode.value))
    && GroupsFit(p.groups, GroupSizes)
  }

  /** Declarative reading of the phone pattern. */
  ghost predicate MatchesPattern(s: string) {
    exists p :: WellFormed(p) && Render(p) == s
  }

  lemma RenderGroupsCons(g: Group, rest: seq<Group>)
    ensures RenderGroups([g] + rest) == Spaces(g.gap) + g.digits + RenderGroups(rest)
  {
    assert ([g] + rest)[0] == g;
    assert ([g] + rest)[1..] == rest;
  }

  lemma GroupsFitCons(g: Group, rest: seq<Group>, sizes: seq<nat>)
    requires |sizes| > 0 && |g.digits| == sizes[0] && AllDigits(g.digits)
    requires GroupsFit(rest, sizes[1..])
    ensures GroupsFit([g] + rest, sizes)
  {
    var gs := [g] + rest;
    forall i | 0 < i < |gs|
      ensures |gs[i].digits| == sizes[i] && AllDigits(gs[i].digits)
    {
      assert gs[i] == rest[i - 1];
    }
  }

  /** Recognizes ` *\d{sizes[0]} *\d{sizes[1]} ...` against the whole of `s`.
      The spaces before a group are consumed greedily, which loses nothing
      because a group starts with a digit. */
  function SplitGroups(s: string, sizes: seq<nat>): (r: Option<seq<Group>>)
    ensures r.Some? ==> GroupsFit(r.value, sizes) && RenderGroups(r.value) == s
    decreases |sizes|
  {
    if |sizes| == 0 then
      if |s| == 0 then Some([]) else None
    else
      var gap := LeadingSpaces(s);
      var t := s[gap..];
      if sizes[0] <= |t| && AllDigits(t[..sizes[0]]) then
        match SplitGroups(t[sizes[0]..], sizes[1..])
        case Some(rest) =>
          var g := Group(gap, t[..sizes[0]]);
          LeadingRunIsSpaces(s);
          Cut(s, gap, sizes[0]);
          RenderGroupsCons(g, rest);
          GroupsFitCons(g, rest, sizes);
          Some([g] + rest)
        case None => None
      else None
  }

  /** The `\+\d{2}` branch: `s` is what follows the `+`. */
  function SplitAfterPlus(s: string): (r: Option<PhoneParts>)
    ensures r.Some? ==> WellFormed(r.value)
    ensures r.Some? ==> Render(r.value) == "+" + s
  {
    if |s| < CountryCodeLength || !AllDigits(s[..CountryCodeLength]) then None
    else match SplitGroups(s[CountryCodeLength..], GroupSizes)
      case None => None
      case Some(gs) =>
        RenderAfterPlus(s, gs);
        Some(PhoneParts(Some(s[..CountryCodeLength]), gs))
  }

  lemma RenderAfterPlus(s: string, gs: seq<Group>)
    requires |s| >= CountryCodeLength && RenderGroups(gs) == s[CountryCodeLength..]
    ensures Render(PhoneParts(Some(s[..CountryCodeLength]), gs)) == "+" + s
  {
    var cc := s[..CountryCodeLength];
    assert s == cc + RenderGroups(gs);
    Associative("+", cc, RenderGroups(gs));
  }

  /** The recognizer: an optional `+dd`, then the four groups. */
  function Split(s: string): (r: Option<PhoneParts>)
    ensures r.Some? ==> WellFormed(r.value) && Render(r.value) == s
  {
    if |s| > 0 && s[0] == '+' then
      assert s == "+" + s[1..];
      SplitAfterPlus(s[1..])
    else
      match SplitGroups(s, GroupSizes)
      case Some(gs) => Some(PhoneParts(None, gs))
      case None => None
  }

  /** `Pattern.matches(patternPhone, s)`. */
  predicate IsPhone(s: string)
    ensures IsPhone(s) ==> MatchesPattern(s)
  {
    var r := Split(s);
    assert r.Some? ==> WellFormed(r.value) && Render(r.value) == s;
    r.Some?
  }

  /** Rendered groups start with a space or a digit, never with `+`. */
  lemma RenderGroupsStart(gs: seq<Group>, sizes: seq<nat>)
    requires GroupsFit(gs, sizes) && AllPositive(sizes) && |sizes| > 0
    ensures |RenderGroups(gs)| > 0
    ensures RenderGroups(gs)[0] == ' ' || IsDigit(RenderGroups(gs)[0])
  {
    var s := RenderGroups(gs);
    assert s == Spaces(gs[0].gap) + gs[0].digits + RenderGroups(gs[1..]);
    if gs[0].gap == 0 {
      assert s[0] == gs[0].digits[0];
    }
  }

  /** The recognizer reads a rendering back into exactly the groups it came from. */
  lemma {:induction false} SplitGroupsRender(gs: seq<Group>, sizes: seq<nat>)
    requires GroupsFit(gs, sizes) && AllPositive(sizes)
    ensures SplitGroups(RenderGroups(gs), sizes) == Some(gs)
  {
    if |sizes| > 0 {
      var g := gs[0];
      var tail := RenderGroups(gs[1..]);
      var t := g.digits + tail;
      assert RenderGroups(gs) == Spaces(g.gap) + t;
      assert IsDigit(g.digits[0]);
      LeadingSpacesOfSpaces(g.gap, t);
      assert RenderGroups(gs)[g.gap..] == t;
      assert t[..sizes[0]] == g.digits;
      assert t[sizes[0]..] == tail;
      assert GroupsFit(gs[1..], sizes[1..]) by {
        forall i | 0 <= i < |gs[1..]|
          ensures |gs[1..][i].digits| == sizes[1..][i] && AllDigits(gs[1..][i].digits)
        {
          assert gs[1..][i] == gs[i + 1];
        }
      }
      SplitGroupsRender(gs[1..], sizes[1..]);
      assert [g] + gs[1..] == gs;
    }
  }

  /** Every well-formed phone is recognized, and its pieces are recovered. */
  lemma SplitRender(p: PhoneParts)
    requires WellFormed(p)
    ensures Split(Render(p)) == Some(p)
  {
    assert AllPositive(GroupSizes);
    SplitGroupsRender(p.groups, GroupSizes);
    match p.countryCode
    case Some(cc) =>
      SplitRenderWithCode(cc, p.groups);
    case None =>
      RenderGroupsStart(p.groups, GroupSizes);
  }

  lemma SplitRenderWithCode(cc: string, gs: seq<Group>)
    ensures |cc| == CountryCodeLength && AllDigits(cc) && SplitGroups(RenderGroups(gs), GroupSizes) == Some(gs)
      ==> Split("+" + cc + RenderGroups(gs)) == Some(PhoneParts(Some(cc), gs))
  {
    if |cc| != CountryCodeLength {
      return;
    }
    var after := cc + RenderGroups(gs);
    Associative("+", cc, RenderGroups(gs));
    assert ("+" + after)[1..] == after;
    assert after[..CountryCodeLength] == cc;
    assert after[CountryCodeLength..] == RenderGroups(gs);
  }

  /** The recognizer accepts exactly the strings of the pattern. */
  lemma IsPhoneCorrect(s: string)
    ensures IsPhone(s) <==> MatchesPattern(s)
  {
    if IsPhone(s) {
      var p := Split(s).value;
      assert WellFormed(p) && Render(p) == s;
    }
    if MatchesPattern(s) {
      var p :| WellFormed(p) && Render(p) == s;
      SplitRender(p);
    }
  }

  /** Any ten ASCII digits without separators form an accepted number. */
  lemma AcceptsTenDigits(s: string)
    requires |s| == 10 && AllDigits(s)
    ensures IsPhone(s)
  {
    var gs := [Group(0, s[..3]), Group(0, s[3..6]), Group(0, s[6..8]), Group(0, s[8..])];
    FitsFour(gs);
    RenderFourGroups(gs);
    assert Piece(gs[0]) == s[..3] && Piece(gs[1]) == s[3..6] && Piece(gs[2]) == s[6..8] && Piece(gs[3]) == s[8..];
    CutTen(s);
    SplitRender(PhoneParts(None, gs));
  }

  /** The same with a `+dd` country code and one space before every group,
      as in `+38 099 123 45 67`. */
  lemma AcceptsSpacedInternational(s: string)
    requires |s| == 17 && s[0] == '+' && AllDigits(s[1..3])
    requires s[3] == ' ' && s[7] == ' ' && s[11] == ' ' && s[14] == ' '
    requires AllDigits(s[4..7]) && AllDigits(s[8..11]) && AllDigits(s[12..14]) && AllDigits(s[15..])
    ensures IsPhone(s)
  {
    var gs := [Group(1, s[4..7]), Group(1, s[8..11]), Group(1, s[12..14]), Group(1, s[15..])];
    FitsFour(gs);
    RenderFourGroups(gs);
    assert Spaces(1) == [' '];
    assert Piece(gs[0]) == s[3..7] && Piece(gs[1]) == s[7..11] && Piece(gs[2]) == s[11..14] && Piece(gs[3]) == s[14..];
    CutSeventeen(s);
    Associative("+", s[1..3], RenderGroups(gs));
    SplitRender(PhoneParts(Some(s[1..3]), gs));
  }

  /** Ten digits split 3/3/2/2 by single spaces, as in `099 123 45 67`. */
  lemma AcceptsSpacedPlain(s: string)
    requires |s| == 13 && s[3] == ' ' && s[7] == ' ' && s[10] == ' '
    requires AllDigits(s[..3]) && AllDigits(s[4..7]) && AllDigits(s[8..10]) && AllDigits(s[11..])
    ensures IsPhone(s)
  {
    var gs := [Group(0, s[..3]), Group(1, s[4..7]), Group(1, s[8..10]), Group(1, s[11..])];
    FitsFour(gs);
    RenderFourGroups(gs);
    assert Spaces(1) == [' '] && Spaces(0) == [];
    assert Piece(gs[0]) == s[..3] && Piece(gs[1]) == s[3..7] && Piece(gs[2]) == s[7..10] && Piece(gs[3]) == s[10..];
    CutThirteen(s);
    SplitRender(PhoneParts(None, gs));
  }

  /** A sample number with a country code. */
  lemma AcceptsSampleInternational()
    ensures IsPhone("+38 099 123 45 67")
  {
    var s := "+38 099 123 45 67";
    assert s[1..3] == "38" && s[4..7] == "099" && s[8..11] == "123" && s[12..14] == "45" && s[15..] == "67";
    AcceptsSpacedInternational(s);
  }

  /** A sample number without one. */
  lemma AcceptsSamplePlain()
    ensures IsPhone("0991234567")
  {
    AcceptsTenDigits("0991234567");
  }

  /** The same number with spaces between the groups. */
  lemma AcceptsSampleSpaced()
    ensures IsPhone("099 123 45 67")
  {
    var s := "099 123 45 67";
    assert s[..3] == "099" && s[4..7] == "123" && s[8..10] == "45" && s[11..] == "67";
    AcceptsSpacedPlain(s);
  }

  lemma CutTen(s: string)
    requires |s| == 10
    ensures s == s[..3] + (s[3..6] + (s[6..8] + s[8..]))
  {
  }

  lemma CutThirteen(s: string)
    requires |s| == 13
    ensures s == s[..3] + (s[3..7] + (s[7..10] + s[10..]))
  {
  }

  lemma CutSeventeen(s: string)
    requires |s| == 17 && s[0] == '+'
    ensures s == "+" + (s[1..3] + (s[3..7] + (s[7..11] + (s[11..14] + s[14..]))))
  {
  }

  lemma FitsFour(gs: seq<Group>)
    requires |gs| == 4
    requires |gs[0].digits| == 3 && |gs[1].digits| == 3 && |gs[2].digits| == 2 && |gs[3].digits| == 2
    requires AllDigits(gs[0].digits) && AllDigits(gs[1].digits) && AllDigits(gs[2].digits) && AllDigits(gs[3].digits)
    ensures GroupsFit(gs, GroupSizes)
  {
    forall i | 0 <= i < 4
      ensures |gs[i].digits| == GroupSizes[i] && AllDigits(gs[i].digits)
    {
      if i == 0 {} else if i == 1 {} else if i == 2 {} else {}
    }
  }

  /** One `gap` + digits piece of the rendering. */
  function Piece(g: Group): string {
    Spaces(g.gap) + g.digits
  }

  lemma RenderFourGroups(gs: seq<Group>)
    requires |gs| == 4
    ensures RenderGroups(gs) == Piece(gs[0]) + (Piece(gs[1]) + (Piece(gs[2]) + Piece(gs[3])))
  {
    assert RenderGroups(gs[4..]) == "";
    assert RenderGroups(gs[3..]) == Piece(gs[3]) + RenderGroups(gs[4..]);
    assert RenderGroups(gs[2..]) == Piece(gs[2]) + RenderGroups(gs[3..]) by { assert gs[2..][1..] == gs[3..]; }
    assert RenderGroups(gs[1..]) == Piece(gs[1]) + RenderGroups(gs[2..]) by { assert gs[1..][1..] == gs[2..]; }
    assert RenderGroups(gs) == Piece(gs[0]) + RenderGroups(gs[1..]);
  }

  /** A dash is not a separator the pattern allows. */
  lemma RejectsDash()
    ensures !IsPhone("099-123-45-67")
  {
    var s := "099-123-45-67";
    assert s[0] != '+';
    assert LeadingSpaces(s) == 0;
    assert !AllDigits(s[3..][..3]) by { assert s[3..][..3][0] == '-'; }
    assert SplitGroups(s, GroupSizes).None?;
  }
}
