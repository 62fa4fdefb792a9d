/**
 * GlobalExceptionHandler: the response for an AppException, and for a failed request-body
 * validation the list of messages, ordered by field and with the constraint's attributes
 * substituted into each message.
 */
module ExceptionHandling {
  import opened Wrappers
  import opened Errors
  import opened Strings

  /** A field error of the binding result: the field's name and its (interpolated) default message. */
  datatype FieldError = FieldError(field: string, defaultMessage: string)

  /**
   * A constraint's attributes (`min`, `max`, ...) by name, each as its `toString()`, with the
   * key `field` set to the violation's property path.
   */
  type Attributes = map<string, string>

  /** The body of an error response: always `success = false`. */
  datatype ErrorResponse = ErrorResponse(status: nat, success: bool, message: string, errors: seq<string>)

  // ---------------------------------------------------------------- AppException

  /**
   * `handleAppException`: the code's status and message, with the exception's error list.
   * The status table of the four codes whose declaration is not modelled is unknown: None.
   */
  function HandleAppException(code: ErrorCode, errors: seq<string>): (r: Option<ErrorResponse>)
    ensures r.Some? <==> HttpStatus(code).Some?
    ensures r.Some? ==> Some(r.value.status) == HttpStatus(code) && Some(r.value.message) == Message(code)
    ensures r.Some? ==> 400 <= r.value.status < 600 && !r.value.success && r.value.errors == errors
  {
    match HttpStatus(code)
    case None => None
    case Some(status) => Some(ErrorResponse(status, false, Message(code).value, errors))
  }

  /** Failed logins answer 401, unverified accounts 403, and a failed validation 422. */
  lemma LoginStatuses(errors: seq<string>)
    ensures HandleAppException(LOGIN_FAIL, errors).value.status == 401
    ensures HandleAppException(USER_DISABLE, errors).value.status == 403
    ensures HandleAppException(VALIDATION_FAILED, errors).value.status == 422
  {
  }

  // ---------------------------------------------------------------- field order

  /** The order in which field errors are reported. */
  const FIELD_ORDER: seq<string> := ["username", "email", "password", "firstname", "lastname"]

  /** `List.indexOf`: the first position of `x`, or -1. */
  function IndexOf(xs: seq<string>, x: string): (r: int)
    ensures -1 <= r < |xs|
    ensures r == -1 <==> x !in xs
    ensures r >= 0 ==> xs[r] == x && forall j :: 0 <= j < r ==> xs[j] != x
  {
    if xs == [] then -1
    else if xs[0] == x then 0
    else
      var k := IndexOf(xs[1..], x);
      if k == -1 then -1 else k + 1
  }

  /** The sort key of a field error: its field's place in the order, -1 for an unlisted field. */
  function Rank(order: seq<string>, e: FieldError): int
  {
    IndexOf(order, e.field)
  }

  predicate SortedByRank(order: seq<string>, s: seq<FieldError>)
  {
    forall i, j :: 0 <= i < j < |s| ==> Rank(order, s[i]) <= Rank(order, s[j])
  }

  /** The errors of rank `k`, in their order in `s`. */
  function WithRank(order: seq<string>, s: seq<FieldError>, k: int): seq<FieldError>
  {
    if s == [] then []
    else (if Rank(order, s[0]) == k then [s[0]] else []) + WithRank(order, s[1..], k)
  }

  /** Inserts `x` before the first element of the same or a higher rank. */
  function Insert(order: seq<string>, x: FieldError, s: seq<FieldError>): (r: seq<FieldError>)
    ensures |r| == |s| + 1
  {
    if s == [] || Rank(order, x) <= Rank(order, s[0]) then [x] + s
    else [s[0]] + Insert(order, x, s[1..])
  }

  /**
   * `sorted(Comparator.comparingInt(...))`, a stable sort by each field's place in `order`;
   * the handler sorts by `FIELD_ORDER`.
   */
  function SortByFieldOrder(order: seq<string>, s: seq<FieldError>): (r: seq<FieldError>)
    ensures |r| == |s|
  {
    if s == [] then [] else Insert(order, s[0], SortByFieldOrder(order, s[1..]))
  }

  lemma SortedTail(order: seq<string>, s: seq<FieldError>)
    requires SortedByRank(order, s) && s != []
    ensures SortedByRank(order, s[1..])
  {
    forall i, j | 0 <= i < j < |s[1..]| ensures Rank(order, s[1..][i]) <= Rank(order, s[1..][j]) {
      assert s[1..][i] == s[i + 1] && s[1..][j] == s[j + 1];
    }
  }

  lemma {:induction false} InsertMultiset(order: seq<string>, x: FieldError, s: seq<FieldError>)
    ensures multiset(Insert(order, x, s)) == multiset(s) + multiset{x}
  {
    if s == [] || Rank(order, x) <= Rank(order, s[0]) {
      assert Insert(order, x, s) == [x] + s;
    } else {
      var tail := s[1..];
      InsertMultiset(order, x, tail);
      assert Insert(order, x, s) == [s[0]] + Insert(order, x, tail);
      calc {
        multiset(Insert(order, x, s));
        multiset([s[0]]) + multiset(Insert(order, x, tail));
        multiset([s[0]]) + multiset(tail) + multiset{x};
        { assert s == [s[0]] + tail; }
        multiset(s) + multiset{x};
      }
    }
  }

  /** Inserting an element no lower than a bound into elements no lower than it keeps them so. */
  lemma {:induction false} InsertLowerBound(order: seq<string>, x: FieldError, s: seq<FieldError>, lo: int)
    requires lo <= Rank(order, x)
    requires forall i :: 0 <= i < |s| ==> lo <= Rank(order, s[i])
    ensures forall j :: 0 <= j < |Insert(order, x, s)| ==> lo <= Rank(order, Insert(order, x, s)[j])
  {
    var r := Insert(order, x, s);
    if s == [] || Rank(order, x) <= Rank(order, s[0]) {
      assert r == [x] + s;
    } else {
      InsertLowerBound(order, x, s[1..], lo);
      assert r == [s[0]] + Insert(order, x, s[1..]);
    }
  }

  lemma {:induction false} InsertSorted(order: seq<string>, x: FieldError, s: seq<FieldError>)
    requires SortedByRank(order, s)
    ensures SortedByRank(order, Insert(order, x, s))
  {
    var r := Insert(order, x, s);
    if s == [] || Rank(order, x) <= Rank(order, s[0]) {
      assert r[1..] == s;
      forall i, j | 0 <= i < j < |r| ensures Rank(order, r[i]) <= Rank(order, r[j]) {
        assert r[j] == s[j - 1];
        if i > 0 {
          assert r[i] == s[i - 1];
        }
      }
    } else {
      var tail := Insert(order, x, s[1..]);
      SortedTail(order, s);
      InsertSorted(order, x, s[1..]);
      assert forall i :: 0 <= i < |s[1..]| ==> Rank(order, s[0]) <= Rank(order, s[1..][i]) by {
        forall i | 0 <= i < |s[1..]| ensures Rank(order, s[0]) <= Rank(order, s[1..][i]) {
          assert s[1..][i] == s[i + 1];
        }
      }
      InsertLowerBound(order, x, s[1..], Rank(order, s[0]));
      assert r[1..] == tail;
      forall i, j | 0 <= i < j < |r| ensures Rank(order, r[i]) <= Rank(order, r[j]) {
        assert r[j] == tail[j - 1];
        if i > 0 {
          assert r[i] == tail[i - 1];
        }
      }
    }
  }

  lemma WithRankCons(order: seq<string>, e: FieldError, t: seq<FieldError>, k: int)
    ensures WithRank(order, [e] + t, k) == (if Rank(order, e) == k then [e] else []) + WithRank(order, t, k)
  {
    assert ([e] + t)[0] == e && ([e] + t)[1..] == t;
  }

  /** Every element `Insert` passes over has a lower rank, so the errors of each rank keep their order. */
  lemma {:induction false} InsertWithRank(order: seq<string>, x: FieldError, s: seq<FieldError>, k: int)
    ensures WithRank(order, Insert(order, x, s), k) == (if Rank(order, x) == k then [x] else []) + WithRank(order, s, k)
  {
    if s == [] || Rank(order, x) <= Rank(order, s[0]) {
      WithRankCons(order, x, s, k);
    } else {
      var tail := s[1..];
      var w := WithRank(order, tail, k);
      InsertWithRank(order, x, tail, k);
      WithRankCons(order, s[0], Insert(order, x, tail), k);
      WithRankCons(order, s[0], tail, k);
      assert s == [s[0]] + tail;
      if Rank(order, x) == k {
        assert Rank(order, s[0]) != k;
        assert WithRank(order, Insert(order, x, s), k) == [x] + w;
      } else if Rank(order, s[0]) == k {
        assert WithRank(order, Insert(order, x, s), k) == [s[0]] + w;
      } else {
        assert WithRank(order, Insert(order, x, s), k) == w;
      }
    }
  }

  lemma {:induction false} SortSorted(order: seq<string>, s: seq<FieldError>)
    ensures SortedByRank(order, SortByFieldOrder(order, s))
  {
    if s != [] {
      SortSorted(order, s[1..]);
      InsertSorted(order, s[0], SortByFieldOrder(order, s[1..]));
    }
  }

  lemma {:induction false} SortPermutes(order: seq<string>, s: seq<FieldError>)
    ensures multiset(SortByFieldOrder(order, s)) == multiset(s)
  {
    if s != [] {
      SortPermutes(order, s[1..]);
      InsertMultiset(order, s[0], SortByFieldOrder(order, s[1..]));
      assert s == [s[0]] + s[1..];
    }
  }

  lemma {:induction false} SortStable(order: seq<string>, s: seq<FieldError>, k: int)
    ensures WithRank(order, SortByFieldOrder(order, s), k) == WithRank(order, s, k)
  {
    if s != [] {
      var rest := SortByFieldOrder(order, s[1..]);
      SortStable(order, s[1..], k);
      SortSorted(order, s[1..]);
      InsertWithRank(order, s[0], rest, k);
      assert WithRank(order, s, k) == (if Rank(order, s[0]) == k then [s[0]] else []) + WithRank(order, s[1..], k);
    }
  }

  /**
   * The field errors come out ordered by field, as a permutation of the input, and errors of
   * the same rank keep their relative order (the sort is stable).
   */
  lemma SortByFieldOrderCorrect(order: seq<string>, s: seq<FieldError>)
    ensures SortedByRank(order, SortByFieldOrder(order, s))
    ensures multiset(SortByFieldOrder(order, s)) == multiset(s)
    ensures forall k :: WithRank(order, SortByFieldOrder(order, s), k) == WithRank(order, s, k)
  {
    SortSorted(order, s);
    SortPermutes(order, s);
    forall k ensures WithRank(order, SortByFieldOrder(order, s), k) == WithRank(order, s, k) {
      SortStable(order, s, k);
    }
  }

  /** Errors on unlisted fields come before every listed one. */
  lemma UnlistedFieldsFirst(order: seq<string>, s: seq<FieldError>, i: nat, j: nat)
    requires i < |SortByFieldOrder(order, s)| && j < |SortByFieldOrder(order, s)|
    requires SortByFieldOrder(order, s)[i].field !in order && SortByFieldOrder(order, s)[j].field in order
    ensures i < j
  {
    SortByFieldOrderCorrect(order, s);
  }

  // ---------------------------------------------------------------- mapAttributes

  predicate MatchesField(attr: Attributes, fieldName: string)
  {
    "field" in attr && attr["field"] == fieldName
  }

  /** `filter(...).findFirst()`: the position of the first attribute map for the field. */
  function FirstMatch(attributesList: seq<Attributes>, fieldName: string): (r: Option<nat>)
    ensures r.None? <==> forall i :: 0 <= i < |attributesList| ==> !MatchesField(attributesList[i], fieldName)
    ensures r.Some? ==> r.value < |attributesList| && MatchesField(attributesList[r.value], fieldName)
    ensures r.Some? ==> forall j :: 0 <= j < r.value ==> !MatchesField(attributesList[j], fieldName)
  {
    if attributesList == [] then None
    else if MatchesField(attributesList[0], fieldName) then Some(0)
    else match FirstMatch(attributesList[1..], fieldName)
      case None => None
      case Some(k) => Some(k + 1)
  }

  /**
   * `mapAttributes`: with an attribute map for the field, `{min}` and `{max}` are replaced by
   * the constraint's bounds when it has them, then `{field}` by the field's name; without one
   * the message is kept.
   */
  function MapAttributes(message: string, attributesList: seq<Attributes>, fieldName: string): (r: string)
    ensures FirstMatch(attributesList, fieldName).None? ==> r == message
  {
    match FirstMatch(attributesList, fieldName)
    case None => message
    case Some(i) =>
      var attr := attributesList[i];
      var withMin := if "min" in attr then ReplaceAll(message, "{min}", attr["min"]) else message;
      var withMax := if "max" in attr then ReplaceAll(withMin, "{max}", attr["max"]) else withMin;
      ReplaceAll(withMax, "{field}", fieldName)
  }

  /** Maps after the first one for the field are never consulted. */
  lemma FirstMatchOnly(message: string, first: seq<Attributes>, rest: seq<Attributes>, fieldName: string)
    requires FirstMatch(first, fieldName).Some?
    ensures FirstMatch(first + rest, fieldName) == FirstMatch(first, fieldName)
    ensures MapAttributes(message, first + rest, fieldName) == MapAttributes(message, first, fieldName)
  {
    var i := FirstMatch(first, fieldName).value;
    var r := FirstMatch(first + rest, fieldName);
    assert (first + rest)[i] == first[i];
    forall j | 0 <= j < i ensures !MatchesField((first + rest)[j], fieldName) {
      assert (first + rest)[j] == first[j];
    }
  }

  /**
   * A placeholder `u` is absent from text holding one other placeholder `t` that it is not a
   * prefix of, when no other `{` occurs.
   */
  lemma OtherPlaceholderAbsent(p: string, t: string, q: string, u: string, r: string, d: nat)
    requires |u| > 0 && u[0] == '{' && d < |t| && d < |u| && t[d] != u[d]
    requires '{' !in p && '{' !in t[1..] && '{' !in q
    ensures ReplaceAll(p + t + q, u, r) == p + t + q
  {
    var s := p + t + q;
    forall i ensures !OccursAt(s, u, i) {
      if 0 <= i && i + |u| <= |s| {
        var w := s[i..i + |u|];
        if i < |p| {
          assert w[0] == p[i];
        } else if i == |p| {
          assert w[d] == t[d];
        } else if i < |p| + |t| {
          assert w[0] == t[1..][i - |p| - 1];
        } else {
          assert w[0] == q[i - |p| - |t|];
        }
      }
    }
    ReplaceAllAbsent(s, u, r);
  }

  /** With a map for the field, a message around `{field}` gets the field's name. */
  lemma FieldPlaceholderFilled(p: string, q: string, attributesList: seq<Attributes>, fieldName: string)
    requires FirstMatch(attributesList, fieldName).Some?
    requires '{' !in p && '{' !in q
    ensures MapAttributes(p + "{field}" + q, attributesList, fieldName) == p + fieldName + q
  {
    var attr := attributesList[FirstMatch(attributesList, fieldName).value];
    if "min" in attr {
      OtherPlaceholderAbsent(p, "{field}", q, "{min}", attr["min"], 1);
    }
    if "max" in attr {
      OtherPlaceholderAbsent(p, "{field}", q, "{max}", attr["max"], 1);
    }
    ReplaceAllPlaceholder(p, "{field}", q, fieldName);
  }

  /**
   * With a map for the field, a message around `{min}` gets the constraint's lower bound, or
   * keeps the placeholder when the constraint has none.
   */
  lemma MinPlaceholderFilled(p: string, q: string, attributesList: seq<Attributes>, fieldName: string)
    requires FirstMatch(attributesList, fieldName).Some?
    requires '{' !in p && '{' !in q
    ensures var attr := attributesList[FirstMatch(attributesList, fieldName).value];
      && ("min" in attr && '{' !in attr["min"] ==>
            MapAttributes(p + "{min}" + q, attributesList, fieldName) == p + attr["min"] + q)
      && ("min" !in attr ==>
            MapAttributes(p + "{min}" + q, attributesList, fieldName) == p + "{min}" + q)
  {
    var attr := attributesList[FirstMatch(attributesList, fieldName).value];
    if "min" in attr && '{' !in attr["min"] {
      var s := p + attr["min"] + q;
      ReplaceAllPlaceholder(p, "{min}", q, attr["min"]);
      assert '{' !in s;
      if "max" in attr {
        NoBraceUnchanged(s, "{max}", attr["max"]);
      }
      NoBraceUnchanged(s, "{field}", fieldName);
    } else if "min" !in attr {
      if "max" in attr {
        OtherPlaceholderAbsent(p, "{min}", q, "{max}", attr["max"], 2);
      }
      OtherPlaceholderAbsent(p, "{min}", q, "{field}", fieldName, 1);
    }
  }

  /** With a map for the field, a message around `{max}` gets the constraint's upper bound. */
  lemma MaxPlaceholderFilled(p: string, q: string, attributesList: seq<Attributes>, fieldName: string)
    requires FirstMatch(attributesList, fieldName).Some?
    requires '{' !in p && '{' !in q
    ensures var attr := attributesList[FirstMatch(attributesList, fieldName).value];
      "max" in attr && '{' !in attr["max"] ==>
        MapAttributes(p + "{max}" + q, attributesList, fieldName) == p + attr["max"] + q
  {
    var attr := attributesList[FirstMatch(attributesList, fieldName).value];
    if "max" in attr && '{' !in attr["max"] {
      var s := p + attr["max"] + q;
      if "min" in attr {
        OtherPlaceholderAbsent(p, "{max}", q, "{min}", attr["min"], 2);
      }
      ReplaceAllPlaceholder(p, "{max}", q, attr["max"]);
      assert '{' !in s;
      NoBraceUnchanged(s, "{field}", fieldName);
    }
  }

  // ---------------------------------------------------------------- message templates

  /** A piece of a constraint's message: literal text, or one of the three placeholders. */
  datatype Piece = Literal(text: string) | MinSlot | MaxSlot | FieldSlot

  function PieceText(x: Piece): string
  {
    match x
    case Literal(t) => t
    case MinSlot => "{min}"
    case MaxSlot => "{max}"
    case FieldSlot => "{field}"
  }

  /** The message text a template stands for. */
  function Render(tpl: seq<Piece>): string
  {
    if tpl == [] then [] else PieceText(tpl[0]) + Render(tpl[1..])
  }

  /** No literal piece holds a `{`, so the placeholders are the only braces in the message. */
  predicate PlainText(tpl: seq<Piece>)
  {
    forall i :: 0 <= i < |tpl| ==> tpl[i].Literal? ==> '{' !in tpl[i].text
  }

  /** A bound of the constraint, when its attribute map has it. */
  function Bound(attr: Attributes, key: string): (b: Option<string>)
    ensures b.Some? <==> key in attr
    ensures b.Some? ==> b.value == attr[key]
  {
    if key in attr then Some(attr[key]) else None
  }

  /**
   * The message as the handler means to produce it: every `{min}` and `{max}` becomes the
   * bound when the constraint has one and stays otherwise, and every `{field}` becomes the
   * field's name.
   */
  function Filled(tpl: seq<Piece>, min: Option<string>, max: Option<string>, fieldName: string): (r: seq<Piece>)
    ensures |r| == |tpl|
  {
    seq(|tpl|, i requires 0 <= i < |tpl| =>
      match tpl[i]
      case Literal(t) => Literal(t)
      case MinSlot => if min.Some? then Literal(min.value) else MinSlot
      case MaxSlot => if max.Some? then Literal(max.value) else MaxSlot
      case FieldSlot => Literal(fieldName))
  }

  /** Every piece equal to `slot` replaced by the literal `r`. */
  function Substitute(tpl: seq<Piece>, slot: Piece, r: string): (res: seq<Piece>)
    ensures |res| == |tpl|
  {
    seq(|tpl|, i requires 0 <= i < |tpl| => if tpl[i] == slot then Literal(r) else tpl[i])
  }

  function SubstituteIf(tpl: seq<Piece>, slot: Piece, r: Option<string>): (res: seq<Piece>)
    ensures |res| == |tpl|
  {
    if r.Some? then Substitute(tpl, slot, r.value) else tpl
  }

  /** A placeholder opens with `{` and holds no other. */
  lemma SlotShape(x: Piece)
    requires !x.Literal?
    ensures |PieceText(x)| > 1 && PieceText(x)[0] == '{' && '{' !in PieceText(x)[1..]
  {
    match x
    case MinSlot => assert PieceText(x)[1..] == "min}";
    case MaxSlot => assert PieceText(x)[1..] == "max}";
    case FieldSlot => assert PieceText(x)[1..] == "field}";
  }

  /** A position at which two different placeholders differ. */
  function Distinguishing(x: Piece, y: Piece): (d: nat)
    requires !x.Literal? && !y.Literal? && x != y
    ensures d < |PieceText(x)| && d < |PieceText(y)| && PieceText(x)[d] != PieceText(y)[d]
  {
    if x == FieldSlot || y == FieldSlot then 1 else 2
  }

  /**
   * One `String.replace` of a placeholder over a plain template replaces exactly that
   * placeholder's pieces, everywhere in the message, and keeps the template plain.
   */
  lemma {:induction false} ReplaceInTemplate(tpl: seq<Piece>, slot: Piece, r: string)
    requires !slot.Literal? && PlainText(tpl) && '{' !in r
    ensures ReplaceAll(Render(tpl), PieceText(slot), r) == Render(Substitute(tpl, slot, r))
    ensures PlainText(Substitute(tpl, slot, r))
  {
    var t := PieceText(slot);
    SlotShape(slot);
    if tpl != [] {
      var h := tpl[0];
      var rest := tpl[1..];
      var out := Substitute(tpl, slot, r);
      assert out[1..] == Substitute(rest, slot, r);
      assert PlainText(rest) by {
        forall i | 0 <= i < |rest| && rest[i].Literal? ensures '{' !in rest[i].text {
          assert rest[i] == tpl[i + 1];
        }
      }
      ReplaceInTemplate(rest, slot, r);
      assert Render(tpl) == PieceText(h) + Render(rest);
      assert Render(out) == PieceText(out[0]) + Render(out[1..]);
      if h.Literal? {
        ReplaceAllBraceFreePrefix(h.text, Render(rest), t, r);
      } else if h == slot {
        ReplaceAllAtStart(t, Render(rest), r);
      } else {
        SlotShape(h);
        ReplaceAllOtherAtStart(PieceText(h), Render(rest), t, r, Distinguishing(h, slot));
      }
    }
  }

  /** Substituting the bounds and then the field's name yields the filled template. */
  lemma SubstitutionsFill(tpl: seq<Piece>, min: Option<string>, max: Option<string>, fieldName: string)
    ensures Substitute(SubstituteIf(SubstituteIf(tpl, MinSlot, min), MaxSlot, max), FieldSlot, fieldName)
            == Filled(tpl, min, max, fieldName)
  {
    var a := SubstituteIf(tpl, MinSlot, min);
    var b := SubstituteIf(a, MaxSlot, max);
    var c := Substitute(b, FieldSlot, fieldName);
    var f := Filled(tpl, min, max, fieldName);
    forall i | 0 <= i < |tpl| ensures c[i] == f[i] {
      assert a[i] == (if min.Some? && tpl[i] == MinSlot then Literal(min.value) else tpl[i]);
    }
  }

  /**
   * `mapAttributes` on a message of literal text and any number of placeholders: with a map
   * for the field, every `{min}` and `{max}` becomes the constraint's bound when it has one,
   * and every `{field}` becomes the field's name.
   */
  lemma MapAttributesFillsTemplate(tpl: seq<Piece>, attributesList: seq<Attributes>, fieldName: string)
    requires PlainText(tpl) && '{' !in fieldName
    requires FirstMatch(attributesList, fieldName).Some?
    requires var attr := attributesList[FirstMatch(attributesList, fieldName).value];
      ("min" in attr ==> '{' !in attr["min"]) && ("max" in attr ==> '{' !in attr["max"])
    ensures var attr := attributesList[FirstMatch(attributesList, fieldName).value];
      MapAttributes(Render(tpl), attributesList, fieldName)
        == Render(Filled(tpl, Bound(attr, "min"), Bound(attr, "max"), fieldName))
  {
    var attr := attributesList[FirstMatch(attributesList, fieldName).value];
    var min, max := Bound(attr, "min"), Bound(attr, "max");
    var a := SubstituteIf(tpl, MinSlot, min);
    if min.Some? {
      ReplaceInTemplate(tpl, MinSlot, min.value);
    }
    var b := SubstituteIf(a, MaxSlot, max);
    if max.Some? {
      ReplaceInTemplate(a, MaxSlot, max.value);
    }
    ReplaceInTemplate(b, FieldSlot, fieldName);
    SubstitutionsFill(tpl, min, max, fieldName);
  }

  /** A plain template whose placeholders are all literals renders without any `{`. */
  lemma {:induction false} NoPlaceholderLeft(tpl: seq<Piece>)
    requires forall i :: 0 <= i < |tpl| ==> tpl[i].Literal? && '{' !in tpl[i].text
    ensures '{' !in Render(tpl)
  {
    if tpl != [] {
      assert forall i :: 0 <= i < |tpl[1..]| ==> tpl[1..][i] == tpl[i + 1];
      NoPlaceholderLeft(tpl[1..]);
    }
  }

  /**
   * When the constraint has both bounds, `mapAttributes` leaves no placeholder at all in a
   * plain message.
   */
  lemma EveryPlaceholderReplaced(tpl: seq<Piece>, attributesList: seq<Attributes>, fieldName: string)
    requires PlainText(tpl) && '{' !in fieldName
    requires FirstMatch(attributesList, fieldName).Some?
    requires var attr := attributesList[FirstMatch(attributesList, fieldName).value];
      "min" in attr && '{' !in attr["min"] && "max" in attr && '{' !in attr["max"]
    ensures '{' !in MapAttributes(Render(tpl), attributesList, fieldName)
  {
    var attr := attributesList[FirstMatch(attributesList, fieldName).value];
    var f := Filled(tpl, Bound(attr, "min"), Bound(attr, "max"), fieldName);
    forall i | 0 <= i < |f| ensures f[i].Literal? && '{' !in f[i].text {
      assert tpl[i].Literal? ==> '{' !in tpl[i].text;
    }
    NoPlaceholderLeft(f);
    MapAttributesFillsTemplate(tpl, attributesList, fieldName);
  }

  // ---------------------------------------------------------------- validation response

  /**
   * Messages listed error by error for a permutation of the errors: every error's message is
   * among them, and each of them is some error's message.
   */
  lemma MessagesOfPermutation(errors: seq<FieldError>, sorted: seq<FieldError>, attributesList: seq<Attributes>,
                              r: seq<string>)
    requires multiset(errors) == multiset(sorted) && |r| == |sorted|
    requires forall i :: 0 <= i < |r| ==> r[i] == MapAttributes(sorted[i].defaultMessage, attributesList, sorted[i].field)
    ensures forall e :: e in errors ==> MapAttributes(e.defaultMessage, attributesList, e.field) in r
    ensures forall m :: m in r ==> exists e :: e in errors && m == MapAttributes(e.defaultMessage, attributesList, e.field)
  {
    forall e | e in errors
      ensures MapAttributes(e.defaultMessage, attributesList, e.field) in r
    {
      assert e in multiset(sorted);
      var j :| 0 <= j < |sorted| && sorted[j] == e;
      assert r[j] == MapAttributes(e.defaultMessage, attributesList, e.field);
    }
    forall m | m in r
      ensures exists e :: e in errors && m == MapAttributes(e.defaultMessage, attributesList, e.field)
    {
      var j :| 0 <= j < |r| && r[j] == m;
      assert sorted[j] in multiset(errors);
    }
  }

  /**
   * The messages of `handleValidationException`: one per field error, in field order. Every
   * error contributes its substituted message and every message comes from an error; the order
   * is that of the sort, whose properties `SortByFieldOrderCorrect` states.
   */
  function ValidationMessages(fieldErrors: seq<FieldError>, attributesList: seq<Attributes>): (r: seq<string>)
    ensures |r| == |fieldErrors|
    ensures forall e :: e in fieldErrors ==> MapAttributes(e.defaultMessage, attributesList, e.field) in r
    ensures forall m :: m in r ==> exists e :: e in fieldErrors && m == MapAttributes(e.defaultMessage, attributesList, e.field)
    ensures forall i :: 0 <= i < |r| ==>
      r[i] == MapAttributes(SortByFieldOrder(FIELD_ORDER, fieldErrors)[i].defaultMessage, attributesList,
                            SortByFieldOrder(FIELD_ORDER, fieldErrors)[i].field)
  {
    var sorted := SortByFieldOrder(FIELD_ORDER, fieldErrors);
    var r := seq(|sorted|, i requires 0 <= i < |sorted| => MapAttributes(sorted[i].defaultMessage, attributesList, sorted[i].field));
    SortByFieldOrderCorrect(FIELD_ORDER, fieldErrors);
    MessagesOfPermutation(fieldErrors, sorted, attributesList, r);
    r
  }

  /** `handleValidationException`: VALIDATION_FAILED's status and message with the ordered messages. */
  function HandleValidationException(fieldErrors: seq<FieldError>, attributesList: seq<Attributes>): (r: ErrorResponse)
    ensures Some(r) == HandleAppException(VALIDATION_FAILED, ValidationMessages(fieldErrors, attributesList))
  {
    ErrorResponse(HttpStatus(VALIDATION_FAILED).value, false, Message(VALIDATION_FAILED).value,
                  ValidationMessages(fieldErrors, attributesList))
  }
}
