/**
 * The import drawer's form (components/GameDrawer/index.js): the per-field
 * rules every draft game must pass, the "at least one game" rule on the list,
 * the all-or-nothing hand-over on submit, and the draft list that the form
 * keeps, appends to, deletes from and clears.
 */
module GameDrawer {
  import opened Wrappers
  import opened Constants
  import opened Catalog

  /** The form's fields, in the order the drawer lays them out. */
  datatype Field = Title | Genre | Upc | Publisher | Developer | Rating | Release | Description

  const AllFields: seq<Field> := [Title, Genre, Upc, Publisher, Developer, Rating, Release, Description]

  /**
   * What a rule objects to: a missing or empty value, a text over its limit,
   * a whitespace-only text, a value outside the field's enumeration, a value
   * that is not a date, or a UPC an existing game already has.
   */
  datatype Kind = Required | TooLong(max: nat) | Whitespace | NotInEnum | NotADate | DuplicateUpc

  datatype Violation = Violation(field: Field, kind: Kind)

  /** The release picker's value: empty, a valid date (an instant), or an invalid date. */
  datatype DateValue = NoDate | ValidDate(instant: int) | InvalidDate

  /** One draft game; `None` is a field the form holds no value for. */
  datatype Draft = Draft(
    title: Option<string>,
    genre: Option<string>,
    upc: Option<string>,
    publisher: Option<string>,
    developer: Option<string>,
    rating: Option<string>,
    release: DateValue,
    description: Option<string>)

  /** What the list's `add()` appends: a draft holding no values. */
  const Blank: Draft := Draft(None, None, None, None, None, None, NoDate, None)

  const MaxLength: nat := 255
  const MaxDescriptionLength: nat := 1000

  // ---------------------------------------------------------------------------
  // Field rules
  // ---------------------------------------------------------------------------

  /** A character (code point) matched by the regular-expression class `\s`. */
  predicate IsWhitespace(c: char)
  {
    var n := c as int;
    n == 0x20 || (0x09 <= n <= 0x0D) || n == 0xA0 || n == 0x1680 || (0x2000 <= n <= 0x200A) ||
    n == 0x2028 || n == 0x2029 || n == 0x202F || n == 0x205F || n == 0x3000 || n == 0xFEFF
  }

  predicate AllWhitespace(s: string)
  {
    forall i :: 0 <= i < |s| ==> IsWhitespace(s[i])
  }

  /**
   * `{ required: true, max, whitespace: true }` on a text field. An absent or
   * empty value is only reported as required; otherwise the length limit and
   * the whitespace test are both checked, in that order.
   */
  function TextRule(v: Option<string>, max: nat): seq<Kind>
  {
    match v
    case None => [Required]
    case Some(s) =>
      if s == "" then [Required]
      else (if |s| > max then [TooLong(max)] else []) + (if AllWhitespace(s) then [Whitespace] else [])
  }

  /** `{ required: true, type: "enum", enum }`: an empty text is not "missing" for an enumeration. */
  function EnumRule(v: Option<string>, allowed: seq<string>): seq<Kind>
  {
    match v
    case None => [Required]
    case Some(s) => if s in allowed then [] else [NotInEnum]
  }

  /** `{ required: true, type: "date" }`. */
  function DateRule(v: DateValue): seq<Kind>
  {
    match v
    case NoDate => [Required]
    case InvalidDate => [NotADate]
    case ValidDate(_) => []
  }

  /** The UPC validator: `existingGames.some(game => game.upc === value)`. */
  predicate UpcTaken(v: Option<string>, existingGames: seq<Game>)
  {
    v.Some? && exists g :: g in existingGames && g.upc == v.value
  }

  /** Every rule of one field, run independently of each other. */
  function FieldKinds(d: Draft, f: Field, existingGames: seq<Game>): seq<Kind>
  {
    match f
    case Title => TextRule(d.title, MaxLength)
    case Genre => EnumRule(d.genre, Genres)
    case Upc => TextRule(d.upc, MaxLength) + (if UpcTaken(d.upc, existingGames) then [DuplicateUpc] else [])
    case Publisher => TextRule(d.publisher, MaxLength)
    case Developer => TextRule(d.developer, MaxLength)
    case Rating => EnumRule(d.rating, EsrbRatings)
    case Release => DateRule(d.release)
    case Description => TextRule(d.description, MaxDescriptionLength)
  }

  /** The kinds `ks` reported against field `f`. */
  function Tagged(f: Field, ks: seq<Kind>): (r: seq<Violation>)
    ensures |r| == |ks|
    ensures forall v :: v in r <==> v.field == f && v.kind in ks
  {
    var r := seq(|ks|, i requires 0 <= i < |ks| => Violation(f, ks[i]));
    assert forall i :: 0 <= i < |ks| ==> r[i] == Violation(f, ks[i]);
    r
  }

  /** The violations of the listed fields, field by field. */
  function ValidateFields(d: Draft, fields: seq<Field>, existingGames: seq<Game>): (r: seq<Violation>)
    ensures forall v :: v in r <==> v.field in fields && v.kind in FieldKinds(d, v.field, existingGames)
    ensures r == [] <==> forall f :: f in fields ==> FieldKinds(d, f, existingGames) == []
  {
    if fields == [] then []
    else
      Tagged(fields[0], FieldKinds(d, fields[0], existingGames)) +
      ValidateFields(d, fields[1..], existingGames)
  }

  lemma EveryFieldListed()
    ensures forall f :: f in AllFields
  {
    forall f ensures f in AllFields {
      var k := match f
        case Title => 0 case Genre => 1 case Upc => 2 case Publisher => 3
        case Developer => 4 case Rating => 5 case Release => 6 case Description => 7;
      assert AllFields[k] == f;
    }
  }

  /** Every violation of one draft, against the console's existing games. */
  function Validate(d: Draft, existingGames: seq<Game>): (r: seq<Violation>)
    ensures forall v :: v in r <==> v.kind in FieldKinds(d, v.field, existingGames)
    ensures r == [] <==> forall f :: FieldKinds(d, f, existingGames) == []
  {
    EveryFieldListed();
    ValidateFields(d, AllFields, existingGames)
  }

  // ---------------------------------------------------------------------------
  // What a valid draft is
  // ---------------------------------------------------------------------------

  /** Present, at most `max` long, and holding some non-whitespace character. */
  ghost predicate FilledWithin(v: Option<string>, max: nat)
  {
    v.Some? && |v.value| <= max && exists i :: 0 <= i < |v.value| && !IsWhitespace(v.value[i])
  }

  /** A draft the form accepts, field by field. */
  ghost predicate Acceptable(d: Draft, existingGames: seq<Game>)
  {
    && FilledWithin(d.title, MaxLength)
    && d.genre.Some? && d.genre.value in Genres
    && FilledWithin(d.upc, MaxLength)
    && (forall g :: g in existingGames ==> g.upc != d.upc.value)
    && FilledWithin(d.publisher, MaxLength)
    && FilledWithin(d.developer, MaxLength)
    && d.rating.Some? && d.rating.value in EsrbRatings
    && d.release.ValidDate?
    && FilledWithin(d.description, MaxDescriptionLength)
  }

  lemma TextRuleAccepts(v: Option<string>, max: nat)
    ensures TextRule(v, max) == [] <==> FilledWithin(v, max)
  {
    if v.Some? && v.value != "" && !AllWhitespace(v.value) {
      var i :| 0 <= i < |v.value| && !IsWhitespace(v.value[i]);
    }
  }

  /** The field rules all pass exactly when the draft is acceptable. */
  lemma FieldRulesAcceptExactly(d: Draft, existingGames: seq<Game>)
    ensures (forall f :: FieldKinds(d, f, existingGames) == []) <==> Acceptable(d, existingGames)
  {
    TextRuleAccepts(d.title, MaxLength);
    TextRuleAccepts(d.upc, MaxLength);
    TextRuleAccepts(d.publisher, MaxLength);
    TextRuleAccepts(d.developer, MaxLength);
    TextRuleAccepts(d.description, MaxDescriptionLength);
    if Acceptable(d, existingGames) {
      forall f ensures FieldKinds(d, f, existingGames) == [] {
      }
    } else {
      assert !(
        && FieldKinds(d, Title, existingGames) == [] && FieldKinds(d, Genre, existingGames) == []
        && FieldKinds(d, Upc, existingGames) == [] && FieldKinds(d, Publisher, existingGames) == []
        && FieldKinds(d, Developer, existingGames) == [] && FieldKinds(d, Rating, existingGames) == []
        && FieldKinds(d, Release, existingGames) == [] && FieldKinds(d, Description, existingGames) == []);
    }
  }

  /** A draft passes every rule exactly when it is acceptable. */
  lemma ValidateAcceptsExactly(d: Draft, existingGames: seq<Game>)
    ensures Validate(d, existingGames) == [] <==> Acceptable(d, existingGames)
  {
    FieldRulesAcceptExactly(d, existingGames);
  }

  // ---------------------------------------------------------------------------
  // The whole form
  // ---------------------------------------------------------------------------

  /** A failure of the list rule, or a violation of the draft at `index`. */
  datatype FormError = NoGames | FieldError(index: nat, violation: Violation)

  /** The violations `vs` reported against the draft at `index`. */
  function AtIndex(index: nat, vs: seq<Violation>): (r: seq<FormError>)
    ensures |r| == |vs|
    ensures forall e :: e in r <==> e.FieldError? && e.index == index && e.violation in vs
  {
    var r := seq(|vs|, i requires 0 <= i < |vs| => FieldError(index, vs[i]));
    assert forall i :: 0 <= i < |vs| ==> r[i] == FieldError(index, vs[i]);
    r
  }

  /** Each draft's violations, in list order. */
  function Reports(games: seq<Draft>, existingGames: seq<Game>): (r: seq<seq<Violation>>)
    ensures |r| == |games|
    ensures forall i :: 0 <= i < |games| ==> r[i] == Validate(games[i], existingGames)
  {
    seq(|games|, i requires 0 <= i < |games| => Validate(games[i], existingGames))
  }

  /** The reported violations, each tagged with the position of its draft. */
  function DraftErrors(reports: seq<seq<Violation>>): (r: seq<FormError>)
    ensures forall e :: e in r ==> e.FieldError? && e.index < |reports| && e.violation in reports[e.index]
    ensures forall i, v :: 0 <= i < |reports| && v in reports[i] ==> FieldError(i, v) in r
    ensures r == [] <==> forall i :: 0 <= i < |reports| ==> reports[i] == []
  {
    if reports == [] then []
    else
      var n := |reports| - 1;
      var front := DraftErrors(reports[..n]);
      var last := AtIndex(n, reports[n]);
      assert forall i :: 0 <= i < n ==> reports[..n][i] == reports[i];
      front + last
  }

  /**
   * Every error the form reports on submit: the list rule (`!games ||
   * games.length < 1`) and the field rules of every draft.
   */
  function FormErrors(games: Option<seq<Draft>>, existingGames: seq<Game>): (r: seq<FormError>)
    ensures NoGames in r <==> games.None? || |games.value| < 1
    ensures forall e :: e in r && e.FieldError? ==>
      games.Some? && e.index < |games.value| && e.violation in Validate(games.value[e.index], existingGames)
    ensures games.Some? ==> forall i, v :: 0 <= i < |games.value| && v in Validate(games.value[i], existingGames) ==>
      FieldError(i, v) in r
  {
    (if games.None? || |games.value| < 1 then [NoGames] else []) +
    (if games.Some? then DraftErrors(Reports(games.value, existingGames)) else [])
  }

  /** A list the form hands on: at least one draft, and every draft acceptable. */
  ghost predicate FormAcceptable(games: Option<seq<Draft>>, existingGames: seq<Game>)
  {
    games.Some? && |games.value| >= 1 &&
    forall i :: 0 <= i < |games.value| ==> Acceptable(games.value[i], existingGames)
  }

  /** The form reports nothing exactly when the list is acceptable. */
  lemma FormErrorsEmptyIff(games: Option<seq<Draft>>, existingGames: seq<Game>)
    ensures FormErrors(games, existingGames) == [] <==> FormAcceptable(games, existingGames)
  {
    if games.Some? {
      forall i | 0 <= i < |games.value| {
        ValidateAcceptsExactly(games.value[i], existingGames);
      }
    }
  }

  /** A list with one bad draft is rejected however many drafts are fine. */
  lemma OneBadDraftRejectsAll(games: seq<Draft>, existingGames: seq<Game>, i: nat)
    requires i < |games| && Validate(games[i], existingGames) != []
    ensures FormErrors(Some(games), existingGames) != []
    ensures !FormAcceptable(Some(games), existingGames)
  {
    FormErrorsEmptyIff(Some(games), existingGames);
  }

  /**
   * Drafts are compared with the existing games only: two drafts with the
   * same new UPC both pass.
   */
  lemma SiblingUpcsNotCompared(d: Draft, existingGames: seq<Game>)
    requires Acceptable(d, existingGames)
    ensures FormAcceptable(Some([d, d]), existingGames)
    ensures FormErrors(Some([d, d]), existingGames) == []
  {
    var games := [d, d];
    assert forall i :: 0 <= i < |games| ==> games[i] == d;
    FormErrorsEmptyIff(Some(games), existingGames);
  }

  /** A UPC is rejected as a duplicate exactly when an existing game has it. */
  lemma DuplicateUpcIff(d: Draft, existingGames: seq<Game>)
    ensures Violation(Upc, DuplicateUpc) in Validate(d, existingGames) <==>
      d.upc.Some? && exists g :: g in existingGames && g.upc == d.upc.value
  {
    if d.upc.Some? && d.upc.value != "" && !AllWhitespace(d.upc.value) {
      assert DuplicateUpc !in TextRule(d.upc, MaxLength);
    }
  }

  /** With existing UPCs "001" and "002", a draft reusing "001" is reported as a duplicate. */
  lemma TakenUpcExample(existingGames: seq<Game>, d: Draft)
    requires |existingGames| == 2 && existingGames[0].upc == "001" && existingGames[1].upc == "002"
    requires d.upc == Some("001")
    ensures Violation(Upc, DuplicateUpc) in Validate(d, existingGames)
  {
    DuplicateUpcIff(d, existingGames);
    assert existingGames[0] in existingGames;
  }

  /** With existing UPCs "001" and "002", a draft with "003" is not a duplicate. */
  lemma NewUpcExample(existingGames: seq<Game>, d: Draft)
    requires |existingGames| == 2 && existingGames[0].upc == "001" && existingGames[1].upc == "002"
    requires d.upc == Some("003")
    ensures Violation(Upc, DuplicateUpc) !in Validate(d, existingGames)
  {
    DuplicateUpcIff(d, existingGames);
    var u := d.upc.value;
    assert u[2] == '3';
    forall k | 0 <= k < 2 ensures existingGames[k].upc != u {
      assert existingGames[k].upc[2] != u[2];
    }
  }

  // ---------------------------------------------------------------------------
  // The form's draft list
  // ---------------------------------------------------------------------------

  /** The drawer's form: its list of draft games and whether it is shown. */
  class DrawerForm {
    var games: seq<Draft>
    var open: bool

    /** A fresh form holds no drafts and is hidden. */
    constructor ()
      ensures games == [] && !open
    {
      games := [];
      open := false;
    }

    /** The effect on a new `games` prop: `form.setFieldsValue({ games })` overwrites the list. */
    method SyncGames(incoming: seq<Draft>)
      modifies this
      ensures games == incoming
      ensures open == old(open)
    {
      games := incoming;
    }

    /** The list's `add()`: one blank draft appended. */
    method Add()
      modifies this
      ensures games == old(games) + [Blank]
      ensures open == old(open)
    {
      games := games + [Blank];
    }

    /** The list's `remove(index)`: the draft at `index` dropped; an index past the end drops nothing. */
    method Remove(index: nat)
      modifies this
      ensures index < |old(games)| ==> games == old(games)[..index] + old(games)[index + 1..]
      ensures index >= |old(games)| ==> games == old(games)
      ensures open == old(open)
    {
      if index < |games| {
        games := games[..index] + games[index + 1..];
      }
    }

    /** An edit in one draft's inputs: that draft replaced, no rule run. */
    method Edit(index: nat, d: Draft)
      requires index < |games|
      modifies this
      ensures games == old(games)[index := d]
      ensures games[index] == d
      ensures open == old(open)
    {
      games := games[index := d];
    }

    /**
     * `internalToggle`, on Cancel or on closing the drawer: the drafts are
     * dropped (the page's toggle hands back an empty `games` list, which the
     * sync effect writes) and the visibility flips.
     */
    method InternalToggle()
      modifies this
      ensures games == []
      ensures open == !old(open)
    {
      games := [];
      open := !open;
    }

    /**
     * `form.submit()`: the form values reach `onSuccess`, through `onFinish`
     * and `handleFinish`, only when no rule reports anything and a handler is
     * given; otherwise nothing is handed on.
     */
    method Submit(existingGames: seq<Game>, hasOnSuccess: bool) returns (delivered: Option<seq<Draft>>)
      ensures delivered.Some? <==> hasOnSuccess && FormAcceptable(Some(games), existingGames)
      ensures delivered.Some? ==> delivered.value == games
    {
      FormErrorsEmptyIff(Some(games), existingGames);
      var errors := FormErrors(Some(games), existingGames);
      if errors == [] && hasOnSuccess {
        delivered := Some(games);
      } else {
        delivered := None;
      }
    }
  }
}
