/** The `Subscription.plan` and `Subscription.status` field resolvers: the
    stored lower-case text is upper-cased (and, for the status, its first `-`
    turned into `_`) and then serialised as a value of the GraphQL enums
    `Plan` and `SubscriptionStatus`; a name outside the enum is a
    serialisation error (`None`). Upper-casing is modelled on ASCII letters. */
module SubscriptionFields {

  import opened Common

  /** `toUpperCase` on one character: ASCII `a`-`z` map to `A`-`Z`. */
  function UpperChar(c: char): (u: char)
    ensures 'a' <= c <= 'z' ==> u as int == c as int - 32 && 'A' <= u <= 'Z'
    ensures !('a' <= c <= 'z') ==> u == c
  {
    if 'a' <= c <= 'z' then (c as int - 32) as char else c
  }

  function ToUpper(s: string): string
  {
    if s == [] then [] else [UpperChar(s[0])] + ToUpper(s[1..])
  }

  /** Upper-casing maps each character on its own and keeps the length. */
  lemma {:induction false} ToUpperAt(s: string)
    ensures |ToUpper(s)| == |s|
    ensures forall i :: 0 <= i < |s| ==> ToUpper(s)[i] == UpperChar(s[i])
  {
    if s != [] {
      ToUpperAt(s[1..]);
    }
  }

  /** Upper-casing twice is upper-casing once. */
  lemma ToUpperIdempotent(s: string)
    ensures ToUpper(ToUpper(s)) == ToUpper(s)
  {
    ToUpperAt(s);
    ToUpperAt(ToUpper(s));
  }

  /** The position of the first `c` in `s`, or `|s|` when there is none. */
  function FirstIndex(s: string, c: char): nat
  {
    if s == [] then 0
    else if s[0] == c then 0
    else 1 + FirstIndex(s[1..], c)
  }

  /** `FirstIndex` is the `indexOf` of `c`, with `|s|` for "not found". */
  lemma {:induction false} FirstIndexSpec(s: string, c: char)
    ensures FirstIndex(s, c) <= |s|
    ensures FirstIndex(s, c) < |s| ==> s[FirstIndex(s, c)] == c
    ensures forall i :: 0 <= i < FirstIndex(s, c) ==> s[i] != c
  {
    if s != [] && s[0] != c {
      FirstIndexSpec(s[1..], c);
    }
  }

  /** `replace(from, to)` with a one-character string pattern: only the first
      occurrence is replaced. */
  function ReplaceFirst(s: string, from: char, to: char): (r: string)
    ensures |r| == |s|
    ensures forall i :: 0 <= i < |s| ==> r[i] == (if i == FirstIndex(s, from) then to else s[i])
    ensures from !in s ==> r == s
  {
    FirstIndexSpec(s, from);
    var k := FirstIndex(s, from);
    if k == |s| then s else s[..k] + [to] + s[k + 1..]
  }

  datatype Plan = Free | Pro | Team

  datatype SubscriptionStatus = Active | Canceled | PastDue

  function PlanName(p: Plan): string
  {
    match p
    case Free => "FREE"
    case Pro => "PRO"
    case Team => "TEAM"
  }

  function StatusName(s: SubscriptionStatus): string
  {
    match s
    case Active => "ACTIVE"
    case Canceled => "CANCELED"
    case PastDue => "PAST_DUE"
  }

  /** Serialising a name as a `Plan` value. */
  function PlanOf(name: string): (r: Option<Plan>)
    ensures forall p :: r == Some(p) <==> name == PlanName(p)
  {
    if name == "FREE" then Some(Free)
    else if name == "PRO" then Some(Pro)
    else if name == "TEAM" then Some(Team)
    else None
  }

  /** Serialising a name as a `SubscriptionStatus` value. */
  function StatusOf(name: string): (r: Option<SubscriptionStatus>)
    ensures forall s :: r == Some(s) <==> name == StatusName(s)
  {
    if name == "ACTIVE" then Some(Active)
    else if name == "CANCELED" then Some(Canceled)
    else if name == "PAST_DUE" then Some(PastDue)
    else None
  }

  /** `Subscription.plan`. */
  function PlanField(plan: string): Option<Plan>
  {
    PlanOf(ToUpper(plan))
  }

  /** `Subscription.status`. */
  function StatusField(status: string): Option<SubscriptionStatus>
  {
    StatusOf(ReplaceFirst(ToUpper(status), '-', '_'))
  }

  /** The plan field accepts a stored plan exactly when its upper-cased text is
      an enum name, so the stored case does not matter. */
  lemma PlanFieldCaseInsensitive(plan: string, p: Plan)
    ensures PlanField(plan) == Some(p) <==> ToUpper(plan) == PlanName(p)
    ensures PlanField(ToUpper(plan)) == PlanField(plan)
  {
    ToUpperIdempotent(plan);
  }

  /** The stored plans `free`, `pro` and `team`, the column default among
      them, serialise as `FREE`, `PRO` and `TEAM`. */
  lemma StoredPlans()
    ensures PlanField("free") == Some(Free)
    ensures PlanField("pro") == Some(Pro)
    ensures PlanField("team") == Some(Team)
  {
    assert ToUpper("free") == "FREE";
    assert ToUpper("pro") == "PRO";
    assert ToUpper("team") == "TEAM";
  }

  /** The status field ignores the case of the stored text, like the plan
      field. */
  lemma StatusFieldCaseInsensitive(status: string)
    ensures StatusField(ToUpper(status)) == StatusField(status)
  {
    ToUpperIdempotent(status);
  }

  // The lemmas below settle the stored status literals one fact at a time:
  // each upper-casing and each dash search of a literal is its own small
  // proof, and `StatusFieldVia` composes them. They are proof steps, not
  // further behaviour of the resolvers.

  /** The status field is read through the upper-cased and the
      dash-replaced text. */
  lemma StatusFieldVia(status: string, upper: string, replaced: string)
    requires ToUpper(status) == upper && ReplaceFirst(upper, '-', '_') == replaced
    ensures StatusField(status) == StatusOf(replaced)
  {
  }

  /** Without a dash the replacement changes nothing. */
  lemma ReplaceWithoutDash(u: string)
    requires FirstIndex(u, '-') == |u|
    ensures ReplaceFirst(u, '-', '_') == u
  {
  }

  /** The stored status `active`, the column default, serialises as `ACTIVE`. */
  lemma StoredActive()
    ensures StatusField("active") == Some(Active)
  {
    UpperActive();
    NoDashInActive();
    ReplaceWithoutDash("ACTIVE");
    StatusFieldVia("active", "ACTIVE", "ACTIVE");
  }

  lemma UpperActive()
    ensures ToUpper("active") == "ACTIVE"
  {
    ToUpperAt("active");
  }

  lemma NoDashInActive()
    ensures FirstIndex("ACTIVE", '-') == 6
  {
  }

  /** `canceled` serialises as `CANCELED`. */
  lemma StoredCanceled()
    ensures StatusField("canceled") == Some(Canceled)
  {
    UpperCanceled();
    NoDashInCanceled();
    ReplaceWithoutDash("CANCELED");
    StatusFieldVia("canceled", "CANCELED", "CANCELED");
  }

  lemma UpperCanceled()
    ensures ToUpper("canceled") == "CANCELED"
  {
    ToUpperAt("canceled");
  }

  lemma NoDashInCanceled()
    ensures FirstIndex("CANCELED", '-') == 8
  {
  }

  /** `past_due` serialises as `PAST_DUE`. */
  lemma StoredPastDue()
    ensures StatusField("past_due") == Some(PastDue)
  {
    UpperPastDue();
    NoDashInPastDue();
    ReplaceWithoutDash("PAST_DUE");
    StatusFieldVia("past_due", "PAST_DUE", "PAST_DUE");
  }

  lemma UpperPastDue()
    ensures ToUpper("past_due") == "PAST_DUE"
  {
    ToUpperAt("past_due");
  }

  lemma NoDashInPastDue()
    ensures FirstIndex("PAST_DUE", '-') == 8
  {
  }

  /** `past-due`, with a dash, serialises as `PAST_DUE` too. */
  lemma DashedPastDue()
    ensures StatusField("past-due") == Some(PastDue)
  {
    UpperPastDashDue();
    ReplacePastDashDue();
    StatusFieldVia("past-due", "PAST-DUE", "PAST_DUE");
  }

  lemma UpperPastDashDue()
    ensures ToUpper("past-due") == "PAST-DUE"
  {
    ToUpperAt("past-due");
  }

  lemma ReplacePastDashDue()
    ensures ReplaceFirst("PAST-DUE", '-', '_') == "PAST_DUE"
  {
    FirstDashAtFour("PAST-DUE");
  }

  /** In an upper-cased status of the form `PAST-...` the first dash is at
      position 4. */
  lemma FirstDashAtFour(u: string)
    requires |u| > 4 && u[..5] == "PAST-"
    ensures FirstIndex(u, '-') == 4
  {
    FirstIndexSpec(u, '-');
    assert u[0] == 'P' && u[1] == 'A' && u[2] == 'S' && u[3] == 'T' && u[4] == '-';
  }

  /** After `PAST` the dash becomes `_` and the rest is kept as it is. */
  lemma ReplaceAfterPast(u: string)
    requires |u| > 5 && u[..5] == "PAST-"
    ensures ReplaceFirst(u, '-', '_')[4] == '_'
    ensures ReplaceFirst(u, '-', '_')[5..] == u[5..]
  {
    FirstDashAtFour(u);
  }

  /** Only the first `-` is replaced: a status such as `past--due` keeps its
      second dash and fails to serialise. */
  lemma SecondDashKept(status: string)
    requires ToUpper(status) == "PAST--DUE"
    ensures ReplaceFirst(ToUpper(status), '-', '_')[4..6] == "_-"
    ensures StatusField(status) == None
  {
    var u := ToUpper(status);
    ReplaceAfterPast(u);
    NoStatusHasNineLetters(ReplaceFirst(u, '-', '_'));
  }

  lemma NoStatusHasNineLetters(name: string)
    requires |name| == 9
    ensures StatusOf(name) == None
  {
  }

}
