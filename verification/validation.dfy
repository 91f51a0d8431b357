/** The Symfony validator constraints the entities use, each as a function from a
    property value to the violations it raises, and the `details` object the
    controllers build from a violation list. */
module Validation {

  import opened Wrappers

  /** Which constraint failed. The message texts are not modelled. */
  datatype Kind = Blank | NotAChoice | TooShort | TooLong | NotPositive | NotEmail

  /** `ConstraintViolation`: the property path and the failed constraint. */
  datatype Violation = Violation(field: string, kind: Kind)

  /** `#[Assert\NotBlank]` on a string: only the empty string is blank ("0" is not). */
  function NotBlank(field: string, s: string): seq<Violation> {
    if s == "" then [Violation(field, Blank)] else []
  }

  /** `#[Assert\NotBlank]` on a nullable property: null is blank. */
  function NotBlankOption<T>(field: string, v: Option<T>): seq<Violation> {
    if v.None? then [Violation(field, Blank)] else []
  }

  /** `#[Assert\Choice(choices: ...)]`: null is skipped, the empty string is not. */
  function Choice(field: string, s: string, choices: seq<string>): seq<Violation> {
    if s in choices then [] else [Violation(field, NotAChoice)]
  }

  /** `#[Assert\Length(min:, max:)]`, counting characters; the maximum is checked first. */
  function Length(field: string, s: string, min: nat, max: nat): seq<Violation> {
    if |s| > max then [Violation(field, TooLong)]
    else if |s| < min then [Violation(field, TooShort)]
    else []
  }

  /** `#[Assert\Positive]` on a nullable number: null is skipped. */
  function Positive(field: string, v: Option<int>): seq<Violation> {
    if v.Some? && v.value <= 0 then [Violation(field, NotPositive)] else []
  }

  /** `#[Assert\Email]`: the empty string is skipped; the address syntax check is the
      opaque `isEmail`. */
  function Email(field: string, s: string, isEmail: string -> bool): seq<Violation> {
    if s == "" || isEmail(s) then [] else [Violation(field, NotEmail)]
  }

  /** `#[Assert\NotBlank]` on a string property that may still be null. */
  function NotBlankOpt(field: string, s: Option<string>): seq<Violation> {
    if s.None? || s.value == "" then [Violation(field, Blank)] else []
  }

  /** `#[Assert\Choice]` on a string property that may still be null (null is skipped). */
  function ChoiceOpt(field: string, s: Option<string>, choices: seq<string>): seq<Violation> {
    if s.Some? then Choice(field, s.value, choices) else []
  }

  /** `#[Assert\Length]` on a string property that may still be null (null is skipped). */
  function LengthOpt(field: string, s: Option<string>, min: nat, max: nat): seq<Violation> {
    if s.Some? then Length(field, s.value, min, max) else []
  }

  function Fields(vs: seq<Violation>): set<string> {
    set i | 0 <= i < |vs| :: vs[i].field
  }

  /** Violations raised only on the given properties name only those properties. */
  lemma FieldsWithin(vs: seq<Violation>, allowed: set<string>)
    requires forall v :: v in vs ==> v.field in allowed
    ensures Fields(vs) <= allowed
  {
    forall f | f in Fields(vs) ensures f in allowed {
      var i :| 0 <= i < |vs| && vs[i].field == f;
      assert vs[i] in vs;
    }
  }

  /** Violation i is the last one for its property. */
  predicate LastFor(vs: seq<Violation>, i: nat)
    requires i < |vs|
  {
    forall j :: i < j < |vs| ==> vs[j].field != vs[i].field
  }

  /** The controllers' `$errorMessages[$error->getPropertyPath()] = ...` loop. */
  function Details(vs: seq<Violation>): map<string, Kind> {
    if |vs| == 0 then map[]
    else Details(vs[..|vs| - 1])[vs[|vs| - 1].field := vs[|vs| - 1].kind]
  }

  lemma FieldsSnoc(vs: seq<Violation>)
    requires |vs| > 0
    ensures Fields(vs) == Fields(vs[..|vs| - 1]) + {vs[|vs| - 1].field}
  {
    var init := vs[..|vs| - 1];
    forall f | f in Fields(vs) ensures f in Fields(init) + {vs[|vs| - 1].field} {
      var i :| 0 <= i < |vs| && vs[i].field == f;
      if i < |init| {
        assert init[i].field == f;
      }
    }
    forall f | f in Fields(init) ensures f in Fields(vs) {
      var i :| 0 <= i < |init| && init[i].field == f;
      assert vs[i].field == f;
    }
  }

  /** The details object has one entry per failing property. */
  lemma {:induction false} DetailsKeys(vs: seq<Violation>)
    ensures Details(vs).Keys == Fields(vs)
  {
    if |vs| > 0 {
      DetailsKeys(vs[..|vs| - 1]);
      FieldsSnoc(vs);
    }
  }

  /** Each entry of the details object holds the last violation raised for its property. */
  lemma {:induction false} DetailsLastWins(vs: seq<Violation>, i: nat)
    requires i < |vs| && LastFor(vs, i)
    ensures vs[i].field in Details(vs) && Details(vs)[vs[i].field] == vs[i].kind
  {
    if i < |vs| - 1 {
      var init := vs[..|vs| - 1];
      assert init[i] == vs[i];
      assert LastFor(init, i) by {
        forall j | i < j < |init| ensures init[j].field != init[i].field {
          assert init[j] == vs[j];
        }
      }
      DetailsLastWins(init, i);
    }
  }
}
