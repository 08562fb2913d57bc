/** The form validator: a fixed sequence of checks that stops at the first
    failure, whose message the user sees. */
module Validation {
  import opened Text
  import opened Records

  /** The text fields of the student form, as typed, and the status combo box. */
  datatype Form = Form(
    id: string,
    name: string,
    programme: string,
    level: string,
    gpa: string,
    email: string,
    phone: string,
    status: Status)

  /** One error per message the validator can show. */
  datatype Error =
    | IdRequired | NameRequired | ProgrammeRequired | LevelRequired
    | GpaRequired | EmailRequired | GpaNotANumber | GpaOutOfRange | EmailInvalid

  datatype Verdict = Accepted | Rejected(reason: Error)

  /** The rules, in the order in which they are checked. */
  const RuleOrder: seq<Error> :=
    [IdRequired, NameRequired, ProgrammeRequired, LevelRequired, GpaRequired,
     EmailRequired, GpaNotANumber, GpaOutOfRange, EmailInvalid]

  /** Position of a rule in `RuleOrder`. */
  function Rank(e: Error): (k: nat)
    ensures k < |RuleOrder| && RuleOrder[k] == e
  {
    match e
    case IdRequired => 0
    case NameRequired => 1
    case ProgrammeRequired => 2
    case LevelRequired => 3
    case GpaRequired => 4
    case EmailRequired => 5
    case GpaNotANumber => 6
    case GpaOutOfRange => 7
    case EmailInvalid => 8
  }

  /** What rule `e` demands of the form, each rule stated on its own. The
      range rule says nothing about text that is not a number. */
  predicate Satisfies(f: Form, parseDouble: string -> Option<real>, e: Error)
  {
    match e
    case IdRequired => Trim(f.id) != []
    case NameRequired => Trim(f.name) != []
    case ProgrammeRequired => Trim(f.programme) != []
    case LevelRequired => Trim(f.level) != []
    case GpaRequired => Trim(f.gpa) != []
    case EmailRequired => Trim(f.email) != []
    case GpaNotANumber => parseDouble(Trim(f.gpa)).Some?
    case GpaOutOfRange =>
      var g := parseDouble(Trim(f.gpa));
      g.Some? ==> 0.0 <= g.value <= 4.0
    case EmailInvalid => '@' in Trim(f.email) && '.' in Trim(f.email)
  }

  /** validateForm, check by check. */
  function Validate(f: Form, parseDouble: string -> Option<real>): (v: Verdict)
  {
    if Trim(f.id) == [] then Rejected(IdRequired)
    else if Trim(f.name) == [] then Rejected(NameRequired)
    else if Trim(f.programme) == [] then Rejected(ProgrammeRequired)
    else if Trim(f.level) == [] then Rejected(LevelRequired)
    else if Trim(f.gpa) == [] then Rejected(GpaRequired)
    else if Trim(f.email) == [] then Rejected(EmailRequired)
    else
      match parseDouble(Trim(f.gpa))
      case None => Rejected(GpaNotANumber)
      case Some(g) =>
        if g < 0.0 || g > 4.0 then Rejected(GpaOutOfRange)
        else
          var email := Trim(f.email);
          if '@' !in email || '.' !in email then Rejected(EmailInvalid)
          else Accepted
  }

  /** The validator accepts exactly the forms that satisfy every rule, and
      otherwise names the first rule, in `RuleOrder`, that the form breaks. */
  lemma ValidateFirstFailure(f: Form, parseDouble: string -> Option<real>)
    ensures Validate(f, parseDouble).Accepted? <==>
              forall k :: 0 <= k < |RuleOrder| ==> Satisfies(f, parseDouble, RuleOrder[k])
    ensures var v := Validate(f, parseDouble);
            v.Rejected? ==>
              && !Satisfies(f, parseDouble, v.reason)
              && forall k :: 0 <= k < Rank(v.reason) ==> Satisfies(f, parseDouble, RuleOrder[k])
  {
    if forall k :: 0 <= k < |RuleOrder| ==> Satisfies(f, parseDouble, RuleOrder[k]) {
      AllRulesSatisfied(f, parseDouble);
    }
  }

  lemma AllRulesSatisfied(f: Form, parseDouble: string -> Option<real>)
    requires forall k :: 0 <= k < |RuleOrder| ==> Satisfies(f, parseDouble, RuleOrder[k])
    ensures Validate(f, parseDouble) == Accepted
  {
    assert Satisfies(f, parseDouble, RuleOrder[0]) && Satisfies(f, parseDouble, RuleOrder[1]);
    assert Satisfies(f, parseDouble, RuleOrder[2]) && Satisfies(f, parseDouble, RuleOrder[3]);
    assert Satisfies(f, parseDouble, RuleOrder[4]) && Satisfies(f, parseDouble, RuleOrder[5]);
    assert Satisfies(f, parseDouble, RuleOrder[6]) && Satisfies(f, parseDouble, RuleOrder[7]);
    assert Satisfies(f, parseDouble, RuleOrder[8]);
  }

  /** An accepted form carries a number in [0.0, 4.0] and an email with '@' and '.'. */
  lemma AcceptedFormFacts(f: Form, parseDouble: string -> Option<real>)
    requires Validate(f, parseDouble).Accepted?
    ensures parseDouble(Trim(f.gpa)).Some?
    ensures 0.0 <= parseDouble(Trim(f.gpa)).value <= 4.0
    ensures Trim(f.id) != [] && Trim(f.name) != [] && Trim(f.programme) != []
    ensures Trim(f.level) != [] && Trim(f.email) != []
    ensures '@' in Trim(f.email) && '.' in Trim(f.email)
  {
    assert Satisfies(f, parseDouble, RuleOrder[6]);
    assert Satisfies(f, parseDouble, RuleOrder[7]);
    assert Satisfies(f, parseDouble, RuleOrder[8]);
    assert forall k :: 0 <= k < 6 ==> Satisfies(f, parseDouble, RuleOrder[k]);
  }

  /** The phone field is never looked at. */
  lemma PhoneNeverChecked(f: Form, phone: string, parseDouble: string -> Option<real>)
    ensures Validate(f.(phone := phone), parseDouble) == Validate(f, parseDouble)
  {
    var g := f.(phone := phone);
    assert g.id == f.id && g.name == f.name && g.programme == f.programme && g.level == f.level;
    assert g.gpa == f.gpa && g.email == f.email;
  }

  /** An empty id is reported before anything else is looked at. */
  lemma EmptyIdReportedFirst(f: Form, parseDouble: string -> Option<real>)
    requires Trim(f.id) == []
    ensures Validate(f, parseDouble) == Rejected(IdRequired)
  {
  }

  /** Both ends of the GPA range are accepted. */
  lemma GpaBoundsInclusive(f: Form, parseDouble: string -> Option<real>)
    requires forall k :: 0 <= k < 6 ==> Satisfies(f, parseDouble, RuleOrder[k])
    requires '@' in Trim(f.email) && '.' in Trim(f.email)
    requires parseDouble(Trim(f.gpa)) == Some(0.0) || parseDouble(Trim(f.gpa)) == Some(4.0)
    ensures Validate(f, parseDouble) == Accepted
  {
    AllRulesSatisfied(f, parseDouble);
  }
}
