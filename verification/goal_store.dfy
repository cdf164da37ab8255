/** The goals table and the three request handlers that write it: the admin
    actions `updateGoal` and `setSecondHalf` (app/actions.js) and the Ko-fi
    webhook `POST` (app/api/webhook/route.js). All three act on the row
    with id 1, which is seeded once and never deleted.

    The conversions `Math.round(parseFloat(v) * 100)` and
    `Math.round(v * 100)` are IEEE-double arithmetic. Here they are
    parameters, `ToCents.parsed` and `ToCents.coerced`, and are not
    interpreted. Environment values are parameters as well. */
module GoalStore {
  import opened Wrappers

  /** A form field as `formData.get` returns it: a string, or None for
      `null` when the field is missing. */
  type FieldValue = Option<string>

  /** A JSON property or environment value as JavaScript sees it. `null`
      and `undefined` are distinct values, and the strict `!==` tells
      them apart. */
  datatype JsValue = Undefined | Null | Str(text: string)

  /** A form field as a JavaScript value: a missing field is `null`, never
      `undefined`. */
  function FromField(v: FieldValue): (r: JsValue)
    ensures r != Undefined
  {
    match v
    case None => Null
    case Some(t) => Str(t)
  }

  /** An entry of `process.env`: an unset variable is `undefined`, never
      `null`. */
  function FromEnv(v: Option<string>): (r: JsValue)
    ensures r != Null
  {
    match v
    case None => Undefined
    case Some(t) => Str(t)
  }

  /** The id every handler filters on. */
  const GoalId: int := 1

  /** One row of the goals table. `showSecondHalf` holds whatever the admin
      form sent, since the actions store the raw field value. */
  datatype Goal = Goal(amountInCents: int, goalText: FieldValue, showSecondHalf: FieldValue,
                       secondAmount: int, displayImg: bool)

  /** The fields of the admin form. `displayImage` is submitted but never
      read by the action. */
  datatype GoalForm = GoalForm(amount: FieldValue, goalText: FieldValue, showSecondHalf: FieldValue,
                               secondHalfAmount: FieldValue, displayImage: FieldValue)

  /** The two float conversions to cents. `parsed` is
      `Math.round(parseFloat(v) * 100)`, and `coerced` is
      `Math.round(v * 100)`, which coerces `v` to a number. The two differ:
      an empty field is NaN for the first and 0 for the second. */
  datatype ToCents = ToCents(parsed: FieldValue -> int, coerced: JsValue -> int)

  /** The `data` object of a Ko-fi notification. A property may be
      missing (`undefined`) or `null`. */
  datatype KofiData = KofiData(verificationToken: JsValue, amount: JsValue)

  /** `req.body` as the handler reads it: only its `data` property. */
  datatype RequestBody = RequestBody(data: Option<KofiData>)

  /** What the webhook handler ends with: a response, or an exception thrown
      before any response is built. */
  datatype Reply = Response(status: int, body: string) | Threw

  const Unauthorized: Reply := Response(401, "Unauthorized")
  const Ok: Reply := Response(200, "OK")

  /** The row after `updateGoal`: four columns are overwritten from the form,
      and `displayImg` is left alone. */
  function ApplyForm(g: Goal, form: GoalForm, cents: ToCents): (r: Goal) {
    g.(amountInCents := cents.parsed(form.amount),
       goalText := form.goalText,
       showSecondHalf := form.showSecondHalf,
       secondAmount := cents.coerced(FromField(form.secondHalfAmount)))
  }

  /** The row after the webhook's write: `amountInCents` is replaced. */
  function ApplyAmount(g: Goal, amountInCents: int): (r: Goal) {
    g.(amountInCents := amountInCents)
  }

  /** The webhook's guard: the token is strictly equal to
      KOFI_WEBHOOK_SECRET. A missing token equals an unset secret, while a
      `null` token equals no secret at all. */
  predicate TokenAccepted(data: KofiData, secret: Option<string>) {
    data.verificationToken == FromEnv(secret)
  }

  class Store {
    /** The goals table, keyed by id. */
    var rows: map<int, Goal>

    ghost predicate Valid()
      reads this
    {
      GoalId in rows
    }

    /** The table after the goal row has been seeded. */
    constructor (seed: Goal)
      ensures Valid()
      ensures rows == map[GoalId := seed]
    {
      rows := map[GoalId := seed];
    }

    /** `updateGoal(formData)`: overwrites amount, text, second-half flag and
        second amount of the goal row, and nothing else. */
    method UpdateGoal(form: GoalForm, cents: ToCents)
      requires Valid()
      modifies this
      ensures Valid()
      ensures rows == old(rows)[GoalId := ApplyForm(old(rows)[GoalId], form, cents)]
      ensures rows[GoalId].displayImg == old(rows)[GoalId].displayImg
    {
      var amountInCents := cents.parsed(form.amount);
      var secondHalfAmountInCents := cents.coerced(FromField(form.secondHalfAmount));
      var row := rows[GoalId];
      rows := rows[GoalId := row.(amountInCents := amountInCents,
                                  goalText := form.goalText,
                                  showSecondHalf := form.showSecondHalf,
                                  secondAmount := secondHalfAmountInCents)];
    }

    /** `setSecondHalf(formData)`: overwrites the second-half flag of the goal
        row with the raw field value. */
    method SetSecondHalf(showSecondHalf: FieldValue)
      requires Valid()
      modifies this
      ensures Valid()
      ensures rows == old(rows)[GoalId := old(rows)[GoalId].(showSecondHalf := showSecondHalf)]
    {
      var row := rows[GoalId];
      rows := rows[GoalId := row.(showSecondHalf := showSecondHalf)];
    }

    /** The webhook `POST`. Reading the token of an absent `data` throws.
        A token that differs from the secret gets a 401. Either way nothing
        has been written. Otherwise the goal row's amount is replaced by
        this notification's cents, and the reply is 200 "OK". */
    method Post(body: RequestBody, secret: Option<string>, cents: ToCents) returns (reply: Reply)
      requires Valid()
      modifies this
      ensures Valid()
      ensures body.data.None? ==> reply == Threw && rows == old(rows)
      ensures body.data.Some? && !TokenAccepted(body.data.value, secret) ==>
                reply == Unauthorized && rows == old(rows)
      ensures body.data.Some? && body.data.value.verificationToken == Null ==>
                reply == Unauthorized && rows == old(rows)
      ensures body.data.Some? && TokenAccepted(body.data.value, secret) ==>
                reply == Ok &&
                rows == old(rows)[GoalId := ApplyAmount(old(rows)[GoalId], cents.coerced(body.data.value.amount))]
    {
      if body.data.None? {
        return Threw;
      }
      var data := body.data.value;
      if data.verificationToken != FromEnv(secret) {
        return Unauthorized;
      }
      var amountInCents := cents.coerced(data.amount);
      var row := rows[GoalId];
      rows := rows[GoalId := row.(amountInCents := amountInCents)];
      reply := Ok;
    }
  }

  /** Writing the goal row leaves every other row as it was. */
  lemma OnlyGoalRowWritten(rows: map<int, Goal>, g: Goal, id: int)
    requires id != GoalId
    ensures id in rows[GoalId := g] <==> id in rows
    ensures id in rows ==> rows[GoalId := g][id] == rows[id]
  {
  }

  /** What `updateGoal` stores: the parsed amount and the coerced second
      amount in cents, the text and the flag as raw field values, and the
      untouched display flag. */
  lemma ApplyFormColumns(g: Goal, form: GoalForm, cents: ToCents)
    ensures ApplyForm(g, form, cents).amountInCents == cents.parsed(form.amount)
    ensures ApplyForm(g, form, cents).secondAmount == cents.coerced(FromField(form.secondHalfAmount))
    ensures ApplyForm(g, form, cents).goalText == form.goalText
    ensures ApplyForm(g, form, cents).showSecondHalf == form.showSecondHalf
    ensures ApplyForm(g, form, cents).displayImg == g.displayImg
  {
  }

  /** The form's displayImage field has no effect on the stored row. */
  lemma DisplayImageFieldIgnored(g: Goal, form: GoalForm, cents: ToCents, displayImage: FieldValue)
    ensures ApplyForm(g, form.(displayImage := displayImage), cents) == ApplyForm(g, form, cents)
  {
  }

  /** `updateGoal` is an overwrite: applying the same form twice gives the
      row that applying it once gives. */
  lemma ApplyFormIdempotent(g: Goal, form: GoalForm, cents: ToCents)
    ensures ApplyForm(ApplyForm(g, form, cents), form, cents) == ApplyForm(g, form, cents)
  {
  }

  /** The webhook replaces the amount and no other column: the later of two
      accepted notifications decides the amount. A redelivered notification
      leaves the amount it already set. */
  lemma ApplyAmountOverwrites(g: Goal, first: int, second: int)
    ensures ApplyAmount(g, second).amountInCents == second
    ensures ApplyAmount(g, second).(amountInCents := g.amountInCents) == g
    ensures ApplyAmount(ApplyAmount(g, first), second) == ApplyAmount(g, second)
    ensures ApplyAmount(ApplyAmount(g, second), second) == ApplyAmount(g, second)
  {
  }

  /** The stored amount is not a running total: whenever the row already
      holds a non-zero amount, the result differs from old amount plus
      notification. */
  lemma ApplyAmountIsNotIncrement(g: Goal, amountInCents: int)
    requires g.amountInCents != 0
    ensures ApplyAmount(g, amountInCents).amountInCents != g.amountInCents + amountInCents
  {
  }

  /** With KOFI_WEBHOOK_SECRET unset, a notification whose token property
      is missing passes the guard. A `null` token and every string token
      are refused. */
  lemma UnsetSecretAcceptsMissingToken(amount: JsValue)
    ensures TokenAccepted(KofiData(Undefined, amount), None)
    ensures !TokenAccepted(KofiData(Null, amount), None)
    ensures forall t :: !TokenAccepted(KofiData(Str(t), amount), None)
  {
  }
}
