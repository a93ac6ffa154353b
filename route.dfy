/**
 * The categorize endpoint: decode the body, check both fields are present, check the
 * caller is signed in, then answer with the suggested category. The checks run in
 * that order and the first failure decides the status.
 */
module CategorizeRoute {
  import opened Wrappers
  import opened Text
  import Ai

  /** A field of the decoded JSON body as JavaScript sees it (fractional numbers and NaN are not modelled). */
  datatype JsonValue =
    | Undefined
    | Null
    | Bool(b: bool)
    | Number(n: int)
    | Str(s: string)
    | Composite(text: string)   // an object or array; `text` is its string conversion
    | Unprintable               // an object or array whose string conversion throws (no callable `toString`)

  /** The request body: not JSON, the JSON `null` (whose destructuring throws), or any other value. */
  datatype RequestBody = Unparsable | NullBody | Fields(title: JsonValue, content: JsonValue)

  datatype ResponseBody = CategoryBody(category: string) | ErrorBody(error: string)

  datatype Response = Response(status: int, body: ResponseBody)

  const MissingFieldsError: string := "Title and content are required"
  const UnauthorizedError: string := "Unauthorized"
  const FailureError: string := "Failed to categorize entry"

  /** JavaScript truthiness. */
  predicate Truthy(v: JsonValue)
  {
    match v
    case Undefined => false
    case Null => false
    case Bool(b) => b
    case Number(n) => n != 0
    case Str(s) => s != []
    case Composite(_) => true
    case Unprintable => true
  }

  /** The falsy values of JavaScript, as the language defines them (without NaN and -0). */
  lemma FalsyValues(v: JsonValue)
    ensures !Truthy(v) <==> v in {Undefined, Null, Bool(false), Number(0), Str([])}
  {
  }

  /** The value of a string of decimal digits, read left to right. */
  function DecimalValue(d: string): int
  {
    if d == [] then 0 else 10 * DecimalValue(d[..|d| - 1]) + (d[|d| - 1] as int - '0' as int)
  }

  /** The decimal numeral of `n`: digits only, no leading zero, and it reads back as `n`. */
  function DigitsOf(n: nat): (r: string)
    ensures r != [] && forall i :: 0 <= i < |r| ==> '0' <= r[i] <= '9'
    ensures r[0] == '0' ==> r == "0"
    ensures DecimalValue(r) == n
  {
    if n < 10 then
      assert DecimalValue(["0123456789"[n]]) == n by {
        assert ["0123456789"[n]][..0] == [];
      }
      ["0123456789"[n]]
    else
      var front := DigitsOf(n / 10);
      var r := front + ["0123456789"[n % 10]];
      assert r[..|r| - 1] == front;
      assert r[0] == front[0];
      r
  }

  /** A non-empty string of decimal digits without a leading zero (other than "0" itself). */
  predicate DigitsOnly(d: string)
  {
    d != [] && (forall i :: 0 <= i < |d| ==> '0' <= d[i] <= '9') && (d[0] == '0' ==> d == "0")
  }

  /** The text a template literal inserts for a value, or None when the conversion throws. */
  function TemplateText(v: JsonValue): (r: Option<string>)
    ensures r.None? <==> v.Unprintable?
    ensures v.Str? ==> r == Some(v.s)
    ensures v.Bool? ==> r == Some(if v.b then "true" else "false")
    ensures v.Number? && v.n >= 0 ==> r.Some? && DigitsOnly(r.value) && DecimalValue(r.value) == v.n
    ensures v.Number? && v.n < 0 ==>
              && r.Some? && |r.value| >= 2 && r.value[0] == '-'
              && DigitsOnly(r.value[1..]) && DecimalValue(r.value[1..]) == -v.n
    ensures v.Null? ==> r == Some("null")
    ensures v.Undefined? ==> r == Some("undefined")
    ensures v.Composite? ==> r == Some(v.text)
  {
    match v
    case Undefined => Some("undefined")
    case Null => Some("null")
    case Bool(b) => Some(if b then "true" else "false")
    case Number(n) =>
      if n < 0 then
        assert ("-" + DigitsOf(-n))[1..] == DigitsOf(-n);
        Some("-" + DigitsOf(-n))
      else Some(DigitsOf(n))
    case Str(s) => Some(s)
    case Composite(text) => Some(text)
    case Unprintable => None
  }

  /**
   * `categorizeEntry` applied to the raw fields: the prompt is built inside its `try`,
   * so a field whose conversion throws ends in the fallback label without asking the model.
   */
  function Suggest(title: JsonValue, content: JsonValue, names: seq<string>,
                   model: Ai.Prompt -> Ai.ModelReply): (r: string)
    ensures title.Unprintable? || content.Unprintable? ==> r == Ai.Fallback
    ensures !title.Unprintable? && !content.Unprintable? ==>
              r == Ai.CategorizeEntry(TemplateText(title).value, TemplateText(content).value, names, model)
  {
    match (TemplateText(title), TemplateText(content))
    case (Some(t), Some(c)) => Ai.CategorizeEntry(t, c, names, model)
    case _ => Ai.Fallback
  }

  /**
   * `POST /api/categorize`, given the decoded body, the signed-in user, the user's
   * category names as the query returned them (None when it returned no data) and the
   * model's answer to each prompt.
   */
  function Post(body: RequestBody, user: Option<string>, names: Option<seq<string>>,
                model: Ai.Prompt -> Ai.ModelReply): (r: Response)
    ensures r.status == 200 || r.status == 400 || r.status == 401 || r.status == 500
    // a body that cannot be decoded or destructured: 500
    ensures r.status == 500 <==> !body.Fields?
    ensures r.status == 500 ==> r.body == ErrorBody(FailureError)
    // a missing or falsy field: 400, whoever is signed in
    ensures r.status == 400 <==> body.Fields? && (!Truthy(body.title) || !Truthy(body.content))
    ensures r.status == 400 ==> r.body == ErrorBody(MissingFieldsError)
    // both fields present but nobody signed in: 401
    ensures r.status == 401 <==> body.Fields? && Truthy(body.title) && Truthy(body.content) && user.None?
    ensures r.status == 401 ==> r.body == ErrorBody(UnauthorizedError)
    // otherwise the suggestion for the fields as given (untrimmed) and the names, or [] without data;
    // a field that cannot be printed gives the fallback label, whatever the model would say
    ensures r.status == 200 ==> r.body == CategoryBody(Suggest(body.title, body.content, names.GetOr([]), model))
    ensures r.status == 200 && (body.title.Unprintable? || body.content.Unprintable?)
            ==> r.body == CategoryBody(Ai.Fallback)
    ensures r.status == 200 && !body.title.Unprintable? && !body.content.Unprintable?
            ==> r.body == CategoryBody(Ai.CategorizeEntry(TemplateText(body.title).value,
                                                          TemplateText(body.content).value, names.GetOr([]), model))
  {
    match body
    case Unparsable => Response(500, ErrorBody(FailureError))
    case NullBody => Response(500, ErrorBody(FailureError))
    case Fields(title, content) =>
      if !Truthy(title) || !Truthy(content) then Response(400, ErrorBody(MissingFieldsError))
      else if user.None? then Response(401, ErrorBody(UnauthorizedError))
      else
        Response(200, CategoryBody(Suggest(title, content, names.GetOr([]), model)))
  }

  /** Validation comes before authentication: a missing field gives 400 whether or not anyone is signed in. */
  lemma MissingFieldBeatsAuth(title: JsonValue, content: JsonValue, u1: Option<string>, u2: Option<string>,
                              names: Option<seq<string>>, model: Ai.Prompt -> Ai.ModelReply)
    requires !Truthy(title) || !Truthy(content)
    ensures Post(Fields(title, content), u1, names, model) == Post(Fields(title, content), u2, names, model)
    ensures Post(Fields(title, content), u1, names, model).status == 400
  {
  }

  /**
   * An object field without a usable string conversion, such as `{"toString": 0}`, is
   * truthy, so a signed-in caller gets 200 and the fallback label, and the model is never asked.
   */
  lemma UnprintableFallsBack(content: JsonValue, userId: string, names: Option<seq<string>>,
                             model: Ai.Prompt -> Ai.ModelReply)
    requires Truthy(content)
    ensures Post(Fields(Unprintable, content), Some(userId), names, model) == Response(200, CategoryBody(Ai.Fallback))
    ensures Post(Fields(content, Unprintable), Some(userId), names, model) == Response(200, CategoryBody(Ai.Fallback))
  {
  }

  /** No trimming here: whitespace-only strings pass validation and reach the model. */
  lemma WhitespacePasses(title: string, content: string, userId: string,
                         names: Option<seq<string>>, model: Ai.Prompt -> Ai.ModelReply)
    requires title != [] && content != []
    requires AllWhitespace(title) && AllWhitespace(content)
    ensures Post(Fields(Str(title), Str(content)), Some(userId), names, model).status == 200
  {
  }
}
