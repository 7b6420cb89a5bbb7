/**
 * Payload and query-argument validation (flaskapi/schemas.py), following the
 * load semantics of the schema library the service uses: every declared field
 * is deserialised by type, required fields must be present, a field-level
 * validator runs only on a field that deserialised, and a key the schema does
 * not load (including the output-only `id`) is an "unknown field" error.
 * Errors collect into a map from field name to the problem found there.
 */
module Schemas {
  import opened Wrappers
  import opened Text
  import Email

  /** A JSON value as the schema sees it: a string, an integer, or anything else. */
  datatype Json = JStr(str: string) | JInt(num: int) | JOther

  type Payload = map<string, Json>

  /** The declared type of a field: fields.Str or fields.Int. */
  datatype Kind = StrKind | IntKind

  /** The validator attached to a field. */
  datatype Check = NoCheck | EmailCheck | OneOf(choices: seq<string>)

  datatype Field = Field(kind: Kind, required: bool, check: Check)

  /** A schema's loadable fields, by name. */
  type Schema = map<string, Field>

  /** What went wrong with one field; the wording of the messages is not modelled. */
  datatype Problem = Missing | NotAString | NotAnInteger | Rejected | Unknown

  type Errors = map<string, Problem>

  /** A deserialised field value. */
  datatype Value = VStr(s: string) | VInt(i: int)

  const ROLES: seq<string> := ["author", "editor"]
  const STATES: seq<string> := ["active", "inactive", "deleted"]
  const ORDER_BY: seq<string> := ["name", "last_name", "email"]

  const UserSchema: Schema := map[
    "name" := Field(StrKind, true, NoCheck),
    "last_name" := Field(StrKind, true, NoCheck),
    "email" := Field(StrKind, true, EmailCheck),
    "role" := Field(StrKind, true, OneOf(ROLES)),
    "state" := Field(StrKind, true, OneOf(STATES))
  ]

  const PostSchema: Schema := map[
    "title" := Field(StrKind, true, NoCheck),
    "description" := Field(StrKind, true, NoCheck),
    "author" := Field(IntKind, true, NoCheck)
  ]

  const ArgsSchema: Schema := map[
    "offset" := Field(IntKind, false, NoCheck),
    "limit" := Field(IntKind, false, NoCheck),
    "order_by" := Field(StrKind, false, OneOf(ORDER_BY)),
    "id" := Field(IntKind, false, NoCheck),
    "email" := Field(StrKind, false, NoCheck),
    "name_substr" := Field(StrKind, false, NoCheck),
    "author" := Field(IntKind, false, NoCheck)
  ]

  /** Type conversion of one field value; an integer field also takes a string holding an integer. */
  function Deserialize(kind: Kind, j: Json): (r: Result<Value, Problem>)
    ensures r.Success? ==> (kind == StrKind <==> r.value.VStr?)
    ensures r.Failure? ==> r.error == (if kind == StrKind then NotAString else NotAnInteger)
    ensures kind == StrKind ==> (r.Success? <==> j.JStr?) && (j.JStr? ==> r == Success(VStr(j.str)))
    ensures kind == IntKind ==> (r.Success? <==> IsIntJson(j)) && (r.Success? ==> r.value == VInt(IntValue(j)))
  {
    match kind
    case StrKind =>
      if j.JStr? then Success(VStr(j.str)) else Failure(NotAString)
    case IntKind =>
      match j
      case JInt(n) => Success(VInt(n))
      case JStr(s) => (match ParseInt(s)
                       case Some(n) => Success(VInt(n))
                       case None => Failure(NotAnInteger))
      case JOther => Failure(NotAnInteger)
  }

  predicate Passes(check: Check, v: Value)
  {
    match check
    case NoCheck => true
    case EmailCheck => v.VStr? && Email.EmailValid(v.s)
    case OneOf(choices) => v.VStr? && v.s in choices
  }

  /** The problem with declared field f, named k, of a payload, if any. */
  function FieldProblem(k: string, f: Field, data: Payload): Option<Problem>
  {
    if k !in data then
      (if f.required then Some(Missing) else None)
    else
      match Deserialize(f.kind, data[k])
      case Failure(p) => Some(p)
      case Success(v) => if Passes(f.check, v) then None else Some(Rejected)
  }

  /** The problem reported under key k: that of the field named k, or an unknown key. */
  function ProblemAt(schema: Schema, data: Payload, k: string): Option<Problem>
  {
    if k in schema then FieldProblem(k, schema[k], data)
    else if k in data then Some(Unknown)
    else None
  }

  /**
   * All errors of a payload, one entry per failing key: only declared or sent
   * keys appear, keys the schema does not declare are always reported as
   * unknown, and a key that was not sent can only be a required field
   * reported missing.
   */
  function Validate(schema: Schema, data: Payload): (errs: Errors)
    ensures errs.Keys <= schema.Keys + data.Keys
    ensures forall k | k in data && k !in schema :: k in errs && errs[k] == Unknown
    ensures forall k | k in errs && k !in data :: k in schema && schema[k].required && errs[k] == Missing
  {
    map k | k in schema.Keys + data.Keys && ProblemAt(schema, data, k).Some? :: ProblemAt(schema, data, k).value
  }

  /** A key is in the error map exactly when a problem is found under it. */
  lemma ValidateAt(schema: Schema, data: Payload, k: string)
    ensures k in Validate(schema, data) <==> ProblemAt(schema, data, k).Some?
    ensures k in Validate(schema, data) ==> Validate(schema, data)[k] == ProblemAt(schema, data, k).value
  {
  }

  // ---------------------------------------------------------------------------
  // UserSchema

  const USER_FIELDS: set<string> := {"name", "last_name", "email", "role", "state"}

  /**
   * The user payload rules written out field by field: a string is present,
   * the email passes the email check, and role and state are members of their
   * enumerations, compared case-sensitively.
   */
  predicate UserFieldAccepted(d: Payload, k: string)
  {
    && k in d && d[k].JStr?
    && (k == "email" ==> Email.EmailValid(d[k].str))
    && (k == "role" ==> d[k].str == "author" || d[k].str == "editor")
    && (k == "state" ==> d[k].str == "active" || d[k].str == "inactive" || d[k].str == "deleted")
  }

  lemma UserKeyError(d: Payload, k: string)
    ensures k in Validate(UserSchema, d) <==>
      (k in USER_FIELDS && !UserFieldAccepted(d, k)) || (k in d && k !in USER_FIELDS)
  {
    ValidateAt(UserSchema, d, k);
  }

  /** The error map of a user payload has an entry exactly for each failing or unknown key. */
  lemma UserErrorDomain(d: Payload)
    ensures forall k :: k in Validate(UserSchema, d) <==>
      (k in USER_FIELDS && !UserFieldAccepted(d, k)) || (k in d && k !in USER_FIELDS)
  {
    forall k
      ensures k in Validate(UserSchema, d) <==>
        (k in USER_FIELDS && !UserFieldAccepted(d, k)) || (k in d && k !in USER_FIELDS)
    {
      UserKeyError(d, k);
    }
  }

  /** A user payload is accepted exactly when each of the five fields is acceptable and nothing else is sent. */
  lemma UserValidIff(d: Payload)
    ensures Validate(UserSchema, d) == map[] <==>
      (forall k | k in USER_FIELDS :: UserFieldAccepted(d, k)) && d.Keys <= USER_FIELDS
  {
    UserErrorDomain(d);
    if Validate(UserSchema, d) != map[] {
      assert exists k :: k in Validate(UserSchema, d);
    }
  }

  /** A missing user field is reported as missing under its own name. */
  lemma MissingUserField(d: Payload, k: string)
    requires k in USER_FIELDS && k !in d
    ensures k in Validate(UserSchema, d) && Validate(UserSchema, d)[k] == Missing
  {
    ValidateAt(UserSchema, d, k);
  }

  /** Role and state are compared exactly: "Author" and "ACTIVE" are refused. */
  lemma EnumerationsCaseSensitive(d: Payload)
    requires "role" in d && d["role"] == JStr("Author")
    requires "state" in d && d["state"] == JStr("ACTIVE")
    ensures "role" in Validate(UserSchema, d) && "state" in Validate(UserSchema, d)
  {
    UserKeyError(d, "role");
    UserKeyError(d, "state");
  }

  // ---------------------------------------------------------------------------
  // PostSchema

  const POST_FIELDS: set<string> := {"title", "description", "author"}

  /** An integer field's JSON value: an integer, or a string that parses as one. */
  predicate IsIntJson(j: Json)
  {
    j.JInt? || (j.JStr? && ParseInt(j.str).Some?)
  }

  predicate PostFieldAccepted(d: Payload, k: string)
  {
    k in d && (if k == "author" then IsIntJson(d[k]) else d[k].JStr?)
  }

  lemma PostKeyError(d: Payload, k: string)
    ensures k in Validate(PostSchema, d) <==>
      (k in POST_FIELDS && !PostFieldAccepted(d, k)) || (k in d && k !in POST_FIELDS)
  {
    ValidateAt(PostSchema, d, k);
  }

  /** The error map of a post payload has an entry exactly for each failing or unknown key. */
  lemma PostErrorDomain(d: Payload)
    ensures forall k :: k in Validate(PostSchema, d) <==>
      (k in POST_FIELDS && !PostFieldAccepted(d, k)) || (k in d && k !in POST_FIELDS)
  {
    forall k
      ensures k in Validate(PostSchema, d) <==>
        (k in POST_FIELDS && !PostFieldAccepted(d, k)) || (k in d && k !in POST_FIELDS)
    {
      PostKeyError(d, k);
    }
  }

  // ---------------------------------------------------------------------------
  // ArgsSchema

  const ARG_FIELDS: set<string> := {"offset", "limit", "order_by", "id", "email", "name_substr", "author"}
  const INT_ARGS: set<string> := {"offset", "limit", "id", "author"}

  /** Query arguments arrive as strings. */
  function ArgsData(q: map<string, string>): (d: Payload)
    ensures d.Keys == q.Keys
    ensures forall k | k in q :: d[k] == JStr(q[k])
  {
    map k | k in q :: JStr(q[k])
  }

  /** Why a query argument is refused, written out without the schema engine. */
  predicate ArgRefused(q: map<string, string>, k: string)
    requires k in q
  {
    || k !in ARG_FIELDS
    || (k in INT_ARGS && ParseInt(q[k]).None?)
    || (k == "order_by" && q[k] != "name" && q[k] != "last_name" && q[k] != "email")
  }

  lemma ArgKeyError(q: map<string, string>, k: string)
    ensures k in Validate(ArgsSchema, ArgsData(q)) <==> k in q && ArgRefused(q, k)
  {
    ValidateAt(ArgsSchema, ArgsData(q), k);
  }

  /** Only supplied arguments can fail, and a supplied argument fails exactly when it is refused. */
  lemma ArgsErrorDomain(q: map<string, string>)
    ensures forall k :: k in Validate(ArgsSchema, ArgsData(q)) <==> k in q && ArgRefused(q, k)
  {
    forall k
      ensures k in Validate(ArgsSchema, ArgsData(q)) <==> k in q && ArgRefused(q, k)
    {
      ArgKeyError(q, k);
    }
  }

  /** order_by is accepted exactly for the three user columns; post columns are always refused. */
  lemma OrderByAcceptedIff(q: map<string, string>)
    requires "order_by" in q
    ensures "order_by" !in Validate(ArgsSchema, ArgsData(q)) <==> q["order_by"] in ORDER_BY
    ensures q["order_by"] in {"title", "description", "author", "id"} ==> "order_by" in Validate(ArgsSchema, ArgsData(q))
  {
    ArgKeyError(q, "order_by");
  }

  // ---------------------------------------------------------------------------
  // Loading: a validated payload becomes a typed record

  /** The fields of a user as sent by a client; the id is assigned by the store. */
  datatype NewUser = NewUser(name: string, lastName: string, email: string, role: string, state: string)

  /** The fields of a post as sent by a client. */
  datatype NewPost = NewPost(title: string, description: string, author: int)

  /** The field-level validators of UserSchema, stated on a typed record. */
  predicate UserAcceptable(u: NewUser)
  {
    Email.EmailValid(u.email) && u.role in ROLES && u.state in STATES
  }

  /** The JSON body a client sends to create this user. */
  function UserPayload(u: NewUser): Payload
  {
    map["name" := JStr(u.name), "last_name" := JStr(u.lastName), "email" := JStr(u.email),
        "role" := JStr(u.role), "state" := JStr(u.state)]
  }

  /** The JSON body a client sends to create this post. */
  function PostPayload(p: NewPost): Payload
  {
    map["title" := JStr(p.title), "description" := JStr(p.description), "author" := JInt(p.author)]
  }

  lemma UserPayloadFields(u: NewUser)
    ensures UserPayload(u).Keys == USER_FIELDS
    ensures UserPayload(u)["name"] == JStr(u.name) && UserPayload(u)["last_name"] == JStr(u.lastName)
    ensures UserPayload(u)["email"] == JStr(u.email)
    ensures UserPayload(u)["role"] == JStr(u.role) && UserPayload(u)["state"] == JStr(u.state)
  {
  }

  /** An accepted user payload holds all five fields as strings. */
  lemma AcceptedUserFields(d: Payload)
    requires Validate(UserSchema, d) == map[]
    ensures "name" in d && "last_name" in d && "email" in d && "role" in d && "state" in d
    ensures d["name"].JStr? && d["last_name"].JStr? && d["email"].JStr? && d["role"].JStr? && d["state"].JStr?
  {
    UserKeyError(d, "name");
    UserKeyError(d, "last_name");
    UserKeyError(d, "email");
    UserKeyError(d, "role");
    UserKeyError(d, "state");
  }

  /** The user an accepted payload holds passes the validators. */
  lemma AcceptedUserChecks(d: Payload)
    requires Validate(UserSchema, d) == map[]
    requires "name" in d && "last_name" in d && "email" in d && "role" in d && "state" in d
    requires d["name"].JStr? && d["last_name"].JStr? && d["email"].JStr? && d["role"].JStr? && d["state"].JStr?
    ensures UserAcceptable(NewUser(d["name"].str, d["last_name"].str, d["email"].str, d["role"].str, d["state"].str))
  {
    UserKeyError(d, "email");
    UserKeyError(d, "role");
    UserKeyError(d, "state");
  }

  /** An accepted user payload is exactly the body of the user it holds: nothing else was sent. */
  lemma AcceptedUserPayload(d: Payload)
    requires Validate(UserSchema, d) == map[]
    requires "name" in d && "last_name" in d && "email" in d && "role" in d && "state" in d
    requires d["name"].JStr? && d["last_name"].JStr? && d["email"].JStr? && d["role"].JStr? && d["state"].JStr?
    ensures d == UserPayload(NewUser(d["name"].str, d["last_name"].str, d["email"].str, d["role"].str, d["state"].str))
  {
    var u := NewUser(d["name"].str, d["last_name"].str, d["email"].str, d["role"].str, d["state"].str);
    UserPayloadFields(u);
    forall k | k in d ensures k in USER_FIELDS {
      UserKeyError(d, k);
    }
    assert d.Keys == UserPayload(u).Keys;
  }

  /** user_schema.load: the typed user, or every field error found. */
  function LoadUser(d: Payload): (r: Result<NewUser, Errors>)
    ensures r.Failure? ==> r.error == Validate(UserSchema, d) && r.error != map[]
    ensures r.Success? ==> UserAcceptable(r.value) && d == UserPayload(r.value)
  {
    var errs := Validate(UserSchema, d);
    if errs != map[] then Failure(errs)
    else
      AcceptedUserFields(d);
      AcceptedUserChecks(d);
      AcceptedUserPayload(d);
      Success(NewUser(d["name"].str, d["last_name"].str, d["email"].str, d["role"].str, d["state"].str))
  }

  /** Loading the body built from a user gives that user back exactly when its fields pass the validators. */
  lemma LoadUserRoundTrip(u: NewUser)
    ensures LoadUser(UserPayload(u)) == Success(u) <==> UserAcceptable(u)
    ensures LoadUser(UserPayload(u)).Failure? <==> !UserAcceptable(u)
  {
    var d := UserPayload(u);
    UserPayloadFields(u);
    match LoadUser(d)
    case Success(v) =>
      UserPayloadFields(v);
      assert u == v;
    case Failure(e) =>
      UserValidIff(d);
      assert exists k :: k in USER_FIELDS && !UserFieldAccepted(d, k);
  }

  /** The integer an integer field holds. */
  function IntValue(j: Json): int
    requires IsIntJson(j)
  {
    if j.JInt? then j.num else ParseInt(j.str).value
  }

  /** post_schema.load: the typed post, or every field error found. */
  function LoadPost(d: Payload): (r: Result<NewPost, Errors>)
    ensures r.Failure? ==> r.error == Validate(PostSchema, d) && r.error != map[]
    ensures r.Success? ==> d.Keys == POST_FIELDS
    ensures r.Success? ==> d["title"] == JStr(r.value.title) && d["description"] == JStr(r.value.description)
    ensures r.Success? ==>
      (d["author"] == JInt(r.value.author) || (d["author"].JStr? && ParseInt(d["author"].str) == Some(r.value.author)))
  {
    var errs := Validate(PostSchema, d);
    if errs != map[] then Failure(errs)
    else
      PostErrorDomain(d);
      assert forall k | k in POST_FIELDS :: PostFieldAccepted(d, k) by {
        forall k | k in POST_FIELDS ensures PostFieldAccepted(d, k) {
          assert k !in errs;
        }
      }
      assert forall k | k in d :: k in POST_FIELDS by {
        forall k | k in d ensures k in POST_FIELDS {
          assert k !in errs;
        }
      }
      Success(NewPost(d["title"].str, d["description"].str, IntValue(d["author"])))
  }

  /** Every post record survives being sent as a body and loaded again. */
  lemma LoadPostRoundTrip(p: NewPost)
    ensures LoadPost(PostPayload(p)) == Success(p)
  {
    var d := PostPayload(p);
    PostErrorDomain(d);
    assert Validate(PostSchema, d) == map[] by {
      forall k | k in Validate(PostSchema, d) ensures false {
      }
    }
  }

  // ---------------------------------------------------------------------------
  // Query arguments

  /** The user columns a listing can be ordered by. */
  datatype OrderKey = ByName | ByLastName | ByEmail

  /** The query-string spelling of an ordering column. */
  function ColumnName(k: OrderKey): (s: string)
    ensures s in ORDER_BY
  {
    match k
    case ByName => "name"
    case ByLastName => "last_name"
    case ByEmail => "email"
  }

  function OrderKeyOf(s: string): (r: Option<OrderKey>)
    ensures r.Some? <==> s in ORDER_BY
    ensures r.Some? ==> ColumnName(r.value) == s
  {
    if s == "name" then Some(ByName)
    else if s == "last_name" then Some(ByLastName)
    else if s == "email" then Some(ByEmail)
    else None
  }

  /** The validated query arguments; an absent argument is None. */
  datatype Args = Args(
    offset: Option<int>,
    limit: Option<int>,
    orderBy: Option<OrderKey>,
    id: Option<int>,
    email: Option<string>,
    nameSubstr: Option<string>,
    author: Option<int>)

  function IntArg(q: map<string, string>, k: string): Option<int>
  {
    if k in q then ParseInt(q[k]) else None
  }

  function StrArg(q: map<string, string>, k: string): Option<string>
  {
    if k in q then Some(q[k]) else None
  }

  /** The integer argument k was read from the query: present exactly when sent, with the parsed value. */
  predicate IntArgRead(q: map<string, string>, k: string, v: Option<int>)
  {
    (k in q <==> v.Some?) && (v.Some? ==> ParseInt(q[k]) == v)
  }

  /** args_schema.validate followed by reading the arguments the handlers use. */
  function ParseArgs(q: map<string, string>): (r: Result<Args, Errors>)
    ensures r.Failure? <==> exists k | k in q :: ArgRefused(q, k)
    ensures r.Failure? ==> r.error == Validate(ArgsSchema, ArgsData(q)) && r.error != map[] && r.error.Keys <= q.Keys
    ensures r.Success? ==> q.Keys <= ARG_FIELDS
    ensures r.Success? ==> ("order_by" in q <==> r.value.orderBy.Some?)
    ensures r.Success? && r.value.orderBy.Some? ==> ColumnName(r.value.orderBy.value) == q["order_by"]
    ensures r.Success? ==> IntArgRead(q, "offset", r.value.offset) && IntArgRead(q, "limit", r.value.limit)
    ensures r.Success? ==> IntArgRead(q, "id", r.value.id) && IntArgRead(q, "author", r.value.author)
    ensures r.Success? ==> r.value.email == StrArg(q, "email") && r.value.nameSubstr == StrArg(q, "name_substr")
  {
    ArgsErrorDomain(q);
    var errs := Validate(ArgsSchema, ArgsData(q));
    if errs != map[] then
      assert exists k :: k in errs;
      Failure(errs)
    else
      assert forall k | k in q :: !ArgRefused(q, k) by {
        forall k | k in q ensures !ArgRefused(q, k) {
          assert k !in errs;
        }
      }
      var orderBy := if "order_by" in q then OrderKeyOf(q["order_by"]) else None;
      Success(Args(IntArg(q, "offset"), IntArg(q, "limit"), orderBy, IntArg(q, "id"),
                   StrArg(q, "email"), StrArg(q, "name_substr"), IntArg(q, "author")))
  }
}
