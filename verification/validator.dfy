/** The student validator (`checkStudent`): five independent checks, each
    failure appending a fixed fragment to the message, in a fixed order; an
    empty message means the record is valid. The wall clock is the
    parameter `now`. */
module Validator {
  import opened Optional
  import opened Domain
  import Phone
  import Email
  import Report

  const MinNameLength: nat := 3
  const MaxNameLength: nat := 50

  /** The five checks, named. */
  datatype Rule = FirstNameLength | LastNameLength | BirthdayInPast | PhoneFormat | EmailFormat

  /** The order in which the checks run and report. */
  const RuleOrder: seq<Rule> := [FirstNameLength, LastNameLength, BirthdayInPast, PhoneFormat, EmailFormat]

  /** The text a failing check appends. Only the last one has no trailing separator. */
  function Fragment(r: Rule): (text: string)
    ensures |text| > 0
    ensures text[|text| - 1] == ' ' <==> r != EmailFormat
  {
    match r
    case FirstNameLength => "Students first name don't situated between 3..50, "
    case LastNameLength => "Students last name don't situated between 3..50, "
    case BirthdayInPast => "Student has a wrong birthday, "
    case PhoneFormat => "Student has a wrong phone, "
    case EmailFormat => "Student has a wrong email"
  }

  predicate NameLengthOk(name: string) {
    MinNameLength <= |name| <= MaxNameLength
  }

  /** Whether `st` passes check `r` when validated at time `now`. */
  predicate Passes(r: Rule, st: Student, now: int) {
    match r
    case FirstNameLength => NameLengthOk(st.firstName)
    case LastNameLength => NameLengthOk(st.lastName)
    case BirthdayInPast => st.birthday < now
    case PhoneFormat => Phone.IsPhone(st.phone)
    case EmailFormat => Email.IsEmail(st.email)
  }

  /** The record satisfies every rule, with the two patterns read declaratively. */
  ghost predicate Valid(st: Student, now: int) {
    && NameLengthOk(st.firstName)
    && NameLengthOk(st.lastName)
    && st.birthday < now
    && Phone.MatchesPattern(st.phone)
    && Email.MatchesPattern(st.email)
  }

  /** Validity does not depend on the id. */
  lemma ValidIgnoresId(st: Student, id: int, now: int)
    ensures Valid(st.(id := id), now) <==> Valid(st, now)
  {
  }

  /** The members of `rules` that `st` fails at time `now`, in the order of `rules`. */
  function FailingAmong(rules: seq<Rule>, st: Student, now: int): seq<Rule> {
    if |rules| == 0 then []
    else (if Passes(rules[0], st, now) then [] else [rules[0]]) + FailingAmong(rules[1..], st, now)
  }

  /** The concatenated fragments of `rs`. */
  function Join(rs: seq<Rule>): string {
    Report.Concat(Fragment, rs)
  }

  /** The checks `st` fails at time `now`, in reporting order. */
  function Failing(st: Student, now: int): seq<Rule> {
    FailingAmong(RuleOrder, st, now)
  }

  /** `checkStudent`: every check runs; each failure appends its fragment. */
  function CheckStudent(st: Student, now: int): (message: string)
    ensures message == Join(Failing(st, now))
  {
    var m0 := "";
    var m1 := AppendIf(m0, |st.firstName| < 3 || |st.firstName| > 50, FirstNameLength);
    var m2 := AppendIf(m1, |st.lastName| < 3 || |st.lastName| > 50, LastNameLength);
    // `birthday.compareTo(now) >= 0`
    var m3 := AppendIf(m2, st.birthday >= now, BirthdayInPast);
    var m4 := AppendIf(m3, !Phone.IsPhone(st.phone), PhoneFormat);
    var m5 := AppendIf(m4, !Email.IsEmail(st.email), EmailFormat);
    AppendChain(st, now);
    m5
  }

  /** The five appends of `CheckStudent` add up to the report of the failing checks. */
  lemma AppendChain(st: Student, now: int)
    ensures
      var m1 := AppendIf("", |st.firstName| < 3 || |st.firstName| > 50, FirstNameLength);
      var m2 := AppendIf(m1, |st.lastName| < 3 || |st.lastName| > 50, LastNameLength);
      var m3 := AppendIf(m2, st.birthday >= now, BirthdayInPast);
      var m4 := AppendIf(m3, !Phone.IsPhone(st.phone), PhoneFormat);
      AppendIf(m4, !Email.IsEmail(st.email), EmailFormat) == Join(Failing(st, now))
  {
    var m0 := "";
    var m1 := AppendIf(m0, |st.firstName| < 3 || |st.firstName| > 50, FirstNameLength);
    var m2 := AppendIf(m1, |st.lastName| < 3 || |st.lastName| > 50, LastNameLength);
    var m3 := AppendIf(m2, st.birthday >= now, BirthdayInPast);
    var m4 := AppendIf(m3, !Phone.IsPhone(st.phone), PhoneFormat);
    PassesCases(st, now);
    AppendStep(m0, |st.firstName| < 3 || |st.firstName| > 50, FirstNameLength, st, now);
    AppendStep(m1, |st.lastName| < 3 || |st.lastName| > 50, LastNameLength, st, now);
    AppendStep(m2, st.birthday >= now, BirthdayInPast, st, now);
    AppendStep(m3, !Phone.IsPhone(st.phone), PhoneFormat, st, now);
    AppendStep(m4, !Email.IsEmail(st.email), EmailFormat, st, now);
    JoinFailingUnrolled(st, now);
  }

  lemma PassesCases(st: Student, now: int)
    ensures Passes(FirstNameLength, st, now) <==> 3 <= |st.firstName| <= 50
    ensures Passes(LastNameLength, st, now) <==> 3 <= |st.lastName| <= 50
    ensures Passes(BirthdayInPast, st, now) <==> st.birthday < now
    ensures Passes(PhoneFormat, st, now) <==> Phone.IsPhone(st.phone)
    ensures Passes(EmailFormat, st, now) <==> Email.IsEmail(st.email)
  {
  }

  /** `if (fails) message += fragment`. */
  function AppendIf(message: string, fails: bool, r: Rule): string {
    if fails then message + Fragment(r) else message
  }

  lemma AppendStep(m: string, fails: bool, r: Rule, st: Student, now: int)
    requires fails <==> !Passes(r, st, now)
    ensures AppendIf(m, fails, r) == m + Contribution(r, st, now)
  {
    if !fails {
      assert m + "" == m;
    }
  }

  /** The fragment check `r` contributes: its text if `st` fails it, nothing otherwise. */
  function Contribution(r: Rule, st: Student, now: int): string {
    if Passes(r, st, now) then "" else Fragment(r)
  }

  /** The contributions of `rules`, one after the other. */
  function Contributions(rules: seq<Rule>, st: Student, now: int): string {
    if |rules| == 0 then "" else Contribution(rules[0], st, now) + Contributions(rules[1..], st, now)
  }

  /** Joining the selected rules is the same as letting every rule contribute. */
  lemma {:induction false} JoinFailing(rules: seq<Rule>, st: Student, now: int)
    ensures Join(FailingAmong(rules, st, now)) == Contributions(rules, st, now)
  {
    if |rules| > 0 {
      var head := if Passes(rules[0], st, now) then [] else [rules[0]];
      Report.ConcatAppend(Fragment, head, FailingAmong(rules[1..], st, now));
      JoinFailing(rules[1..], st, now);
      assert Join(head) == Contribution(rules[0], st, now) by {
        if !Passes(rules[0], st, now) {
          assert head[1..] == [];
        }
      }
    }
  }

  /** The report for the five rules, written out left to right. */
  lemma JoinFailingUnrolled(st: Student, now: int)
    ensures Join(Failing(st, now)) ==
        "" + Contribution(FirstNameLength, st, now) + Contribution(LastNameLength, st, now)
        + Contribution(BirthdayInPast, st, now) + Contribution(PhoneFormat, st, now)
        + Contribution(EmailFormat, st, now)
  {
    JoinFailing(RuleOrder, st, now);
    ContributionsOfFive(RuleOrder, st, now);
  }

  lemma ContributionsOfFive(rules: seq<Rule>, st: Student, now: int)
    requires |rules| == 5
    ensures Contributions(rules, st, now) ==
      "" + Contribution(rules[0], st, now) + Contribution(rules[1], st, now)
      + Contribution(rules[2], st, now) + Contribution(rules[3], st, now)
      + Contribution(rules[4], st, now)
  {
    var c := seq(5, i requires 0 <= i < 5 => Contribution(rules[i], st, now));
    assert Contributions(rules[5..], st, now) == "";
    assert Contributions(rules[4..], st, now) == c[4] + Contributions(rules[5..], st, now);
    assert Contributions(rules[3..], st, now) == c[3] + Contributions(rules[4..], st, now);
    assert Contributions(rules[2..], st, now) == c[2] + Contributions(rules[3..], st, now);
    assert Contributions(rules[1..], st, now) == c[1] + Contributions(rules[2..], st, now);
    assert Contributions(rules, st, now) == c[0] + Contributions(rules[1..], st, now);
    Nest5(c[0], c[1], c[2], c[3], c[4]);
  }

  lemma Nest5(a: string, b: string, c: string, d: string, e: string)
    ensures a + (b + (c + (d + (e + "")))) == "" + a + b + c + d + e
  {
  }

  // ---------------------------------------------------------------------
  // Which checks are reported

  lemma {:induction false} FailingAmongMembers(rules: seq<Rule>, st: Student, now: int, r: Rule)
    ensures r in FailingAmong(rules, st, now) <==> r in rules && !Passes(r, st, now)
  {
    if |rules| > 0 {
      FailingAmongMembers(rules[1..], st, now, r);
      assert rules == [rules[0]] + rules[1..];
    }
  }

  lemma {:induction false} FailingAmongEmpty(rules: seq<Rule>, st: Student, now: int)
    ensures FailingAmong(rules, st, now) == [] <==> forall r :: r in rules ==> Passes(r, st, now)
  {
    if |rules| > 0 {
      FailingAmongEmpty(rules[1..], st, now);
      assert rules == [rules[0]] + rules[1..];
    }
  }

  lemma JoinEmpty(rs: seq<Rule>)
    ensures Join(rs) == "" <==> rs == []
  {
    if rs != [] {
      assert |Join(rs)| >= |Fragment(rs[0])| > 0;
    }
  }

  /** The message is empty exactly when all five checks pass, with the phone
      and email patterns read declaratively. */
  lemma CheckStudentEmptyIffValid(st: Student, now: int)
    ensures CheckStudent(st, now) == "" <==> Valid(st, now)
  {
    JoinEmpty(Failing(st, now));
    FailingAmongEmpty(RuleOrder, st, now);
    Phone.IsPhoneCorrect(st.phone);
    Email.IsEmailCorrect(st.email);
    if Valid(st, now) {
      forall r | r in RuleOrder
        ensures Passes(r, st, now)
      {
      }
    } else {
      PassesCases(st, now);
      if !NameLengthOk(st.firstName) {
        assert FirstNameLength in RuleOrder;
      } else if !NameLengthOk(st.lastName) {
        assert LastNameLength in RuleOrder;
      } else if st.birthday >= now {
        assert BirthdayInPast in RuleOrder;
      } else if !Phone.IsPhone(st.phone) {
        assert PhoneFormat in RuleOrder;
      } else {
        assert EmailFormat in RuleOrder;
      }
    }
  }

  /** Every check is among the five that run. */
  lemma AllRulesRun(r: Rule)
    ensures r in RuleOrder
  {
    match r
    case FirstNameLength =>
    case LastNameLength =>
    case BirthdayInPast =>
    case PhoneFormat =>
    case EmailFormat =>
  }

  lemma {:induction false} FailingAmongSingle(rules: seq<Rule>, st: Student, now: int, r: Rule)
    requires Distinct(rules) && r in rules
    requires !Passes(r, st, now) && forall q :: q != r ==> Passes(q, st, now)
    ensures FailingAmong(rules, st, now) == [r]
  {
    assert Distinct(rules[1..]);
    if rules[0] == r {
      FailingAmongEmpty(rules[1..], st, now);
      forall q | q in rules[1..]
        ensures Passes(q, st, now)
      {
        var j :| 0 <= j < |rules[1..]| && rules[1..][j] == q;
        assert rules[j + 1] == q;
      }
    } else {
      assert r in rules[1..];
      FailingAmongSingle(rules[1..], st, now, r);
    }
  }

  lemma {:induction false} FailingAmongAll(rules: seq<Rule>, st: Student, now: int)
    requires forall r :: !Passes(r, st, now)
    ensures FailingAmong(rules, st, now) == rules
  {
    if |rules| > 0 {
      FailingAmongAll(rules[1..], st, now);
      assert rules == [rules[0]] + rules[1..];
    }
  }

  /** A check that fails in isolation yields exactly its own fragment. */
  lemma SingleViolation(st: Student, now: int, r: Rule)
    requires !Passes(r, st, now)
    requires forall q :: q != r ==> Passes(q, st, now)
    ensures Failing(st, now) == [r]
    ensures CheckStudent(st, now) == Fragment(r)
  {
    AllRulesRun(r);
    RuleOrderDistinct();
    FailingAmongSingle(RuleOrder, st, now, r);
    Report.ConcatCons(Fragment, r, []);
    assert [r] + [] == [r];
  }

  /** A record failing every check gets every fragment, in the order the checks run. */
  lemma AllViolations(st: Student, now: int)
    requires forall r :: !Passes(r, st, now)
    ensures Failing(st, now) == RuleOrder
    ensures CheckStudent(st, now) == Join(RuleOrder)
  {
    FailingAmongAll(RuleOrder, st, now);
  }

  // ---------------------------------------------------------------------
  // Reading a message back

  /** The character at position 20 tells the fragments apart. */
  function Mark(r: Rule): char {
    match r
    case FirstNameLength => 'd'
    case LastNameLength => 'o'
    case BirthdayInPast => 'b'
    case PhoneFormat => 'p'
    case EmailFormat => 'e'
  }

  lemma FragmentMark(r: Rule)
    ensures |Fragment(r)| > 20 && Fragment(r)[20] == Mark(r)
  {
    match r
    case FirstNameLength =>
    case LastNameLength =>
    case BirthdayInPast =>
    case PhoneFormat =>
    case EmailFormat =>
  }

  ghost predicate Distinct(rules: seq<Rule>) {
    forall i, j :: 0 <= i < j < |rules| ==> rules[i] != rules[j]
  }

  lemma RuleOrderDistinct()
    ensures Distinct(RuleOrder)
  {
  }

  /** No fragment is empty and none starts another, so a message has one reading. */
  lemma FragmentsUnambiguous()
    ensures Report.Unambiguous(Fragment, RuleOrder)
  {
    RuleOrderDistinct();
    forall i | 0 <= i < |RuleOrder|
      ensures |Fragment(RuleOrder[i])| > 0
    {
      FragmentMark(RuleOrder[i]);
    }
    forall i, j | 0 <= i < |RuleOrder| && 0 <= j < |RuleOrder| && i != j
      ensures !(Fragment(RuleOrder[i]) <= Fragment(RuleOrder[j]))
    {
      var a, b := RuleOrder[i], RuleOrder[j];
      assert a != b;
      FragmentMark(a);
      FragmentMark(b);
      assert Mark(a) != Mark(b);
    }
  }

  /** The checks named by a message, in order, or `None` when the text is not a
      message the validator can produce from its fragments. */
  function Diagnose(message: string): (r: Option<seq<Rule>>)
    ensures r.Some? ==> Join(r.value) == message
  {
    Report.ReadFrom(Fragment, message, RuleOrder)
  }

  lemma {:induction false} FailingAmongOrdered(rules: seq<Rule>, st: Student, now: int)
    ensures Report.IsSubsequence(FailingAmong(rules, st, now), rules)
  {
    if |rules| > 0 {
      var rest := FailingAmong(rules[1..], st, now);
      FailingAmongOrdered(rules[1..], st, now);
      if !Passes(rules[0], st, now) {
        assert FailingAmong(rules, st, now) == [rules[0]] + rest;
        assert ([rules[0]] + rest)[1..] == rest;
      } else {
        assert FailingAmong(rules, st, now) == [] + rest == rest;
      }
    }
  }

  /** The message can be read back into exactly the failing checks, in order:
      no check is skipped once another has failed, and none is reported twice. */
  lemma DiagnoseCheckStudent(st: Student, now: int)
    ensures Diagnose(CheckStudent(st, now)) == Some(Failing(st, now))
  {
    FragmentsUnambiguous();
    FailingAmongOrdered(RuleOrder, st, now);
    Report.ReadConcat(Fragment, RuleOrder, Failing(st, now));
  }

  /** A check is named in the message exactly when the record fails it. */
  lemma ReportedIffFails(st: Student, now: int, r: Rule)
    ensures Diagnose(CheckStudent(st, now)).Some?
    ensures r in Diagnose(CheckStudent(st, now)).value <==> !Passes(r, st, now)
  {
    DiagnoseCheckStudent(st, now);
    FailingAmongMembers(RuleOrder, st, now, r);
    AllRulesRun(r);
  }

  /** The birthday check rejects a birthday equal to `now` and accepts every earlier one. */
  lemma BirthdayBoundary(st: Student, now: int)
    ensures Diagnose(CheckStudent(st, now)).Some?
    ensures BirthdayInPast in Diagnose(CheckStudent(st, now)).value <==> now <= st.birthday
  {
    ReportedIffFails(st, now, BirthdayInPast);
  }

  // ---------------------------------------------------------------------
  // Sample records

  /** 2000-01-01T00:00:00Z in milliseconds since the epoch. */
  const NewYear2000: int := 946684800000

  /** 2999-01-01T00:00:00Z in milliseconds since the epoch. */
  const NewYear2999: int := 32472144000000

  /** A two-letter first name is the only complaint about an otherwise valid record. */
  lemma ShortFirstNameOnly(id: int, now: int)
    requires NewYear2000 < now
    ensures CheckStudent(Student(id, "Al", "Smith", NewYear2000, "+38 099 123 45 67", "a@b.co"), now)
      == Fragment(FirstNameLength)
  {
    var st := Student(id, "Al", "Smith", NewYear2000, "+38 099 123 45 67", "a@b.co");
    Phone.AcceptsSampleInternational();
    Email.AcceptsSimple();
    PassesCases(st, now);
    SingleViolation(st, now, FirstNameLength);
  }

  /** A birthday still to come is the only complaint about an otherwise valid record. */
  lemma FutureBirthdayOnly(id: int, now: int)
    requires now <= NewYear2999
    ensures CheckStudent(Student(id, "Alice", "Smith", NewYear2999, "099 123 45 67", "a@b.co"), now)
      == Fragment(BirthdayInPast)
  {
    var st := Student(id, "Alice", "Smith", NewYear2999, "099 123 45 67", "a@b.co");
    Phone.AcceptsSampleSpaced();
    Email.AcceptsSimple();
    PassesCases(st, now);
    SingleViolation(st, now, BirthdayInPast);
  }
}
