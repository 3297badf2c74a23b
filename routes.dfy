/** The request-validation rules inside the route handlers of index.js,
    lifted out of the handlers as functions of the request fields, the
    configured secrets and what the store answered. */
module Routes {
  import opened Results
  import opened JsString
  import opened ClipUrl

  /** A JSON body field or configuration value, as far as the handlers
      inspect it. */
  datatype Value = Undefined | Null | Bool(b: bool) | Num(n: int) | Str(s: string)

  /** JavaScript truthiness: `false`, `0`, `""`, `null` and `undefined` are falsy. */
  predicate Truthy(v: Value)
  {
    match v
    case Undefined => false
    case Null => false
    case Bool(b) => b
    case Num(n) => n != 0
    case Str(s) => s != []
  }

  /** What a handler does: answer with a status before touching the store,
      go on to the store with the validated data, or (an exception inside
      a `try` whose `catch` only logs) never answer. */
  datatype Outcome<T> = Respond(status: nat) | Proceed(value: T) | NoResponse

  // ---- GET /clips/:date ----

  predicate IsDigit(c: char)
  {
    '0' <= c <= '9'
  }

  /** `/^\d\d\d\d-\d\d-\d\d$/` */
  predicate IsDateShape(d: string)
  {
    |d| == 10 && d[4] == '-' && d[7] == '-'
    && forall i :: 0 <= i < 10 && i != 4 && i != 7 ==> IsDigit(d[i])
  }

  /** A date followed by midnight, as the handler places it in its query. */
  predicate IsMidnightTimestamp(t: string)
  {
    |t| == 19 && IsDateShape(t[..10]) && t[10..] == " 00:00:00"
  }

  /** The date parameter of `GET /clips/:date`: "today" in any case is the
      current Berlin date (given as `berlinToday`); anything else must have
      the date shape or the answer is 422. The value then gets the
      midnight suffix. */
  function ClipsDate(date: string, berlinToday: string): (r: Result<string, nat>)
    ensures r.Err? <==> LowerAscii(date) != "today" && !IsDateShape(date)
    ensures r.Err? ==> r.error == 422
    ensures r.Ok? ==> |r.value| >= 9 && r.value[|r.value| - 9..] == " 00:00:00"
                      && r.value[..|r.value| - 9] == if LowerAscii(date) == "today" then berlinToday else date
    ensures r.Ok? && IsDateShape(berlinToday) ==> IsMidnightTimestamp(r.value)
  {
    var d := if LowerAscii(date) == "today" then berlinToday
             else date;
    if LowerAscii(date) != "today" && !IsDateShape(date) then Err(422)
    else
      var t := d + " 00:00:00";
      assert IsDateShape(d) ==> t[..10] == d;
      Ok(t)
  }

  /** A midnight timestamp holds no quote, so the text the handler pastes
      between quotes into its SQL cannot end the literal early. */
  lemma MidnightTimestampHasNoQuote(t: string)
    requires IsMidnightTimestamp(t)
    ensures '\'' !in t
  {
    forall i | 0 <= i < |t| ensures t[i] != '\'' {
      if i < 10 {
        assert t[i] == t[..10][i];
      } else {
        assert t[i] == t[10..][i - 10];
      }
    }
  }

  /** Every date the handler accepts is a midnight timestamp and is safe
      to paste into its query, provided the clock's date has date shape. */
  lemma AcceptedDateIsSafe(date: string, berlinToday: string)
    requires IsDateShape(berlinToday)
    requires ClipsDate(date, berlinToday).Ok?
    ensures IsMidnightTimestamp(ClipsDate(date, berlinToday).value)
    ensures '\'' !in ClipsDate(date, berlinToday).value
  {
    MidnightTimestampHasNoQuote(ClipsDate(date, berlinToday).value);
  }

  // ---- GET /messages/:channel_name[/since/:timestamp] ----

  /** The channel key: `#` and the lower-cased route parameter. */
  function ChannelKey(name: string): (r: string)
    ensures |r| == |name| + 1 && r[0] == '#' && r[1..] == LowerAscii(name)
  {
    "#" + LowerAscii(name)
  }

  /** Two channel names select the same messages exactly when they agree
      ignoring ASCII case, and a key used again as a name gives itself. */
  lemma ChannelKeyIgnoresCase(a: string, b: string)
    ensures ChannelKey(a) == ChannelKey(b) <==> LowerAscii(a) == LowerAscii(b)
    ensures ChannelKey(ChannelKey(a)[1..]) == ChannelKey(a)
  {
    if ChannelKey(a) == ChannelKey(b) {
      assert ChannelKey(a)[1..] == ChannelKey(b)[1..];
    }
    LowerAsciiIdempotent(a);
  }

  // ---- POST /insertClip, DELETE /removeClip, POST /twitch/insertMessage ----

  /** The shared-secret check: no (or an empty) `authorization` header is
      403, one that is not strictly equal to the configured secret is 401. */
  function SecretCheck(authorization: Option<string>, secret: Value): (r: Option<nat>)
    ensures r == Some(403) <==> authorization.None? || authorization == Some([])
    ensures r == Some(401) <==> authorization.Some? && authorization.value != [] && secret != Str(authorization.value)
    ensures r.None? <==> authorization.Some? && Truthy(secret) && secret == Str(authorization.value)
  {
    if authorization.None? || authorization.value == [] then Some(403)
    else if secret != Str(authorization.value) then Some(401)
    else None
  }

  /** An unset or empty secret lets nobody through. */
  lemma UnsetSecretAdmitsNobody(authorization: Option<string>, secret: Value)
    requires !Truthy(secret)
    ensures SecretCheck(authorization, secret).Some?
  {
  }

  /** `POST /insertClip` up to the call to Twitch: the secret check, then a
      missing URL (400), then a URL that is not a string (the `match` call
      throws inside the `try` and nothing is answered), then a URL that
      does not match the pattern (422); otherwise the clip id. */
  function InsertClipCheck(authorization: Option<string>, recapPassword: Value, url: Value): (r: Outcome<string>)
    ensures SecretCheck(authorization, recapPassword).Some? ==> r == Respond(SecretCheck(authorization, recapPassword).value)
    ensures SecretCheck(authorization, recapPassword).None? ==>
              (r == Respond(400) <==> !Truthy(url))
              && (r == NoResponse <==> Truthy(url) && !url.Str?)
              && (r == Respond(422) <==> url.Str? && url.s != [] && MatchClipUrl(url.s).None?)
    ensures r.Proceed? <==> SecretCheck(authorization, recapPassword).None? && url.Str?
                            && MatchClipUrl(url.s).Some?
    ensures r.Proceed? ==> IsClipId(r.value) && r.value == MatchClipUrl(url.s).value
  {
    var denied := SecretCheck(authorization, recapPassword);
    if denied.Some? then Respond(denied.value)
    else if !Truthy(url) then Respond(400)
    else if !url.Str? then NoResponse
    else
      var m := MatchClipUrl(url.s);
      if m.None? then Respond(422) else Proceed(m.value)
  }

  /** `DELETE /removeClip` up to the queries: as `insertClip`, except that
      the handler has no `try`, so a URL that is not a string makes the
      framework answer 500; a matching URL yields the normalised clip URL. */
  function RemoveClipCheck(authorization: Option<string>, recapPassword: Value, url: Value): (r: Outcome<string>)
    ensures SecretCheck(authorization, recapPassword).Some? ==> r == Respond(SecretCheck(authorization, recapPassword).value)
    ensures SecretCheck(authorization, recapPassword).None? ==>
              (r == Respond(400) <==> !Truthy(url))
              && (r == Respond(500) <==> Truthy(url) && !url.Str?)
              && (r == Respond(422) <==> url.Str? && url.s != [] && MatchClipUrl(url.s).None?)
    ensures r.Proceed? <==> SecretCheck(authorization, recapPassword).None? && url.Str?
                            && MatchClipUrl(url.s).Some?
    ensures r.Proceed? ==> r.value == NormalizeClipUrl(MatchClipUrl(url.s).value)
                           && MatchClipUrl(r.value) == MatchClipUrl(url.s)
                           && '\'' !in r.value
  {
    var denied := SecretCheck(authorization, recapPassword);
    if denied.Some? then Respond(denied.value)
    else if !Truthy(url) then Respond(400)
    else if !url.Str? then Respond(500)
    else
      var m := MatchClipUrl(url.s);
      if m.None? then Respond(422)
      else
        NormalizedUrlRoundTrip(m.value);
        NormalizedUrlHasNoQuote(m.value);
        Proceed(NormalizeClipUrl(m.value))
  }

  /** The clip title stored by `insertClip`: Twitch's title, or the
      broadcaster's name when the title is empty; never empty once the
      broadcaster's name has passed the handler's check. */
  function ClipTitle(title: Value, broadcasterName: Value): (r: Value)
    ensures Truthy(title) ==> r == title
    ensures !Truthy(title) ==> r == broadcasterName
    ensures Truthy(broadcasterName) ==> Truthy(r)
  {
    if !Truthy(title) then broadcasterName else title
  }

  /** The author recorded with a clip's aggregate row: the body's author,
      or "unknown" when it is absent or empty; never empty. */
  function ClipAuthor(author: Value): (r: Value)
    ensures Truthy(r)
    ensures Truthy(author) ==> r == author
    ensures !Truthy(author) ==> r == Str("unknown")
  {
    if Truthy(author) then author else Str("unknown")
  }

  /** The fields `insertMessage` stores. */
  datatype Message = Message(timestamp: Value, channel: Value, user: Value, content: Value, displayName: Value)

  predicate IsComplete(m: Message)
  {
    Truthy(m.timestamp) && Truthy(m.channel) && Truthy(m.user) && Truthy(m.content) && Truthy(m.displayName)
  }

  /** `POST /twitch/insertMessage` up to the insert: the API-key check,
      then 400 if any of the five fields is missing. */
  function InsertMessageCheck(authorization: Option<string>, apiKey: Value, m: Message): (r: Outcome<Message>)
    ensures SecretCheck(authorization, apiKey).Some? ==> r == Respond(SecretCheck(authorization, apiKey).value)
    ensures r == Respond(400) <==> SecretCheck(authorization, apiKey).None? && !IsComplete(m)
    ensures r.Proceed? <==> SecretCheck(authorization, apiKey).None? && IsComplete(m)
    ensures r.Proceed? ==> r.value == m
    ensures r != NoResponse
  {
    var denied := SecretCheck(authorization, apiKey);
    if denied.Some? then Respond(denied.value)
    else if !IsComplete(m) then Respond(400)
    else Proceed(m)
  }

  // ---- POST /wiki/create ----

  /** The `wiki_pages` titles, and whether the store answers at all. */
  datatype WikiTable = WikiTable(titles: seq<string>, reachable: bool)

  /** The text the store compares a title parameter with. */
  function ParamText(v: Value): string
  {
    match v
    case Str(s) => s
    case Num(n) => IntText(n)
    case Bool(b) => if b then "true" else "false"
    case _ => ""
  }

  /** The decimal text of an integer. */
  function IntText(n: int): string
    decreases if n < 0 then 1 - n else n
  {
    if n < 0 then "-" + IntText(-n)
    else if n < 10 then [(n + '0' as int) as char]
    else IntText(n / 10) + [(n % 10 + '0' as int) as char]
  }

  /** `doesWikiPageExist`: false for a missing title; true when the store
      fails, so that a failure blocks creation; otherwise whether a page
      has exactly that title. */
  function DoesWikiPageExist(title: Value, table: WikiTable): (r: bool)
    ensures !Truthy(title) ==> !r
    ensures Truthy(title) && !table.reachable ==> r
    ensures Truthy(title) && table.reachable ==> (r <==> ParamText(title) in table.titles)
  {
    if !Truthy(title) then false
    else if !table.reachable then true
    else ParamText(title) in table.titles
  }

  /** A page `wiki/create` inserts. */
  datatype WikiPage = WikiPage(title: string, content: Value)

  /** `POST /wiki/create` as written: 400 for any missing field before the
      password is looked at, 401 for a wrong password, 409 for an existing
      page; a title that is not a string then fails at `trim` (500);
      otherwise the trimmed title is inserted. The existence check looks
      for the untrimmed title. */
  function WikiCreate(password: Value, title: Value, content: Value, wikiPassword: Value, table: WikiTable)
    : (r: Outcome<WikiPage>)
    ensures r == Respond(400) <==> !Truthy(password) || !Truthy(title) || !Truthy(content)
    ensures r == Respond(401) <==> Truthy(password) && Truthy(title) && Truthy(content) && password != wikiPassword
    ensures r == Respond(409) <==> Truthy(password) && Truthy(title) && Truthy(content) && password == wikiPassword
                                   && DoesWikiPageExist(title, table)
    ensures r.Proceed? <==> Truthy(password) && Truthy(title) && Truthy(content) && password == wikiPassword
                            && !DoesWikiPageExist(title, table) && title.Str?
    ensures r == Respond(500) <==> Truthy(password) && Truthy(title) && Truthy(content) && password == wikiPassword
                                   && !DoesWikiPageExist(title, table) && !title.Str?
    ensures r.Proceed? ==> title.Str? && r.value == WikiPage(Trim(title.s), content)
                           && table.reachable && title.s !in table.titles
    ensures r != NoResponse
  {
    if !Truthy(password) || !Truthy(title) || !Truthy(content) then Respond(400)
    else if password != wikiPassword then Respond(401)
    else if DoesWikiPageExist(title, table) then Respond(409)
    else if !title.Str? then Respond(500)
    else Proceed(WikiPage(Trim(title.s), content))
  }

  /** The existence check of `WikiCreate` misses a page whose title differs
      only by surrounding white space, and the padded title is then
      inserted trimmed: a second page with an existing title. */
  lemma WikiCreateStoresExistingTrimmed(pw: Value, t: string, content: Value, table: WikiTable)
    requires Truthy(pw) && Truthy(content) && table.reachable
    requires t !in table.titles && Trim(t) in table.titles
    ensures WikiCreate(pw, Str(t), content, pw, table) == Proceed(WikiPage(Trim(t), content))
    ensures WikiCreate(pw, Str(t), content, pw, table).value.title in table.titles
  {
    assert t != [] by {
      assert Trim(t) != t;
    }
  }

  /** The page " Foo" is created next to an existing page "Foo". */
  lemma WikiCreateAdmitsDuplicate()
    ensures WikiCreate(Str("pw"), Str(" Foo"), Str("text"), Str("pw"), WikiTable(["Foo"], true))
         == Proceed(WikiPage("Foo", Str("text")))
  {
    TrimOfLeftPadded("Foo");
    assert [' '] + "Foo" == " Foo";
    assert |" Foo"| != |"Foo"|;
    WikiCreateStoresExistingTrimmed(Str("pw"), " Foo", Str("text"), WikiTable(["Foo"], true));
  }

  /** The title text `wiki/create` stores: a string title trimmed, any
      other value as it is (the store receives no other). */
  function StoredTitle(title: Value): (r: Value)
    ensures title.Str? <==> r.Str?
    ensures title.Str? ==> r.s == Trim(title.s)
    ensures !title.Str? ==> r == title
  {
    if title.Str? then Str(Trim(title.s)) else title
  }

  /** `WikiCreate` with the existence check made on the title that is
      stored; every other step as written. */
  function WikiCreateTrimmed(password: Value, title: Value, content: Value, wikiPassword: Value, table: WikiTable)
    : (r: Outcome<WikiPage>)
    ensures r == Respond(400) <==> !Truthy(password) || !Truthy(title) || !Truthy(content)
    ensures r == Respond(401) <==> Truthy(password) && Truthy(title) && Truthy(content) && password != wikiPassword
    ensures r == Respond(409) <==> Truthy(password) && Truthy(title) && Truthy(content) && password == wikiPassword
                                   && DoesWikiPageExist(StoredTitle(title), table)
    ensures r.Proceed? <==> Truthy(password) && Truthy(title) && Truthy(content) && password == wikiPassword
                            && !DoesWikiPageExist(StoredTitle(title), table) && title.Str?
    ensures r == Respond(500) <==> Truthy(password) && Truthy(title) && Truthy(content) && password == wikiPassword
                                   && !DoesWikiPageExist(StoredTitle(title), table) && !title.Str?
    ensures r.Proceed? ==> title.Str? && r.value == WikiPage(Trim(title.s), content)
    ensures r != NoResponse
  {
    if !Truthy(password) || !Truthy(title) || !Truthy(content) then Respond(400)
    else if password != wikiPassword then Respond(401)
    else if DoesWikiPageExist(StoredTitle(title), table) then Respond(409)
    else if !title.Str? then Respond(500)
    else Proceed(WikiPage(Trim(title.s), content))
  }

  /** With the check made on the stored title, creation never stores a
      title that is already present, unless that title is blank (a title
      of white space only passes the 400 check and trims to nothing), and
      never while the store fails. */
  lemma WikiCreateTrimmedNoDuplicate(password: Value, title: Value, content: Value, wikiPassword: Value, table: WikiTable)
    requires WikiCreateTrimmed(password, title, content, wikiPassword, table).Proceed?
    ensures var stored := WikiCreateTrimmed(password, title, content, wikiPassword, table).value.title;
            stored == [] || stored !in table.titles
    ensures WikiCreateTrimmed(password, title, content, wikiPassword, table).value.title != [] ==> table.reachable
  {
  }

  /** On every title with no surrounding white space the corrected handler
      answers as the one written. */
  lemma WikiCreateTrimmedAgrees(password: Value, title: Value, content: Value, wikiPassword: Value, table: WikiTable)
    requires title.Str? ==> Trim(title.s) == title.s
    ensures WikiCreateTrimmed(password, title, content, wikiPassword, table)
         == WikiCreate(password, title, content, wikiPassword, table)
  {
  }
}
