/**
 * `UserPreferencesService.getSettingsSchema`: the preferences endpoint.  It
 * checks that the caller may read policies, looks up the caller's stored
 * email settings, writes the two flags into the settings template in place
 * of `%1` and `%2`, and answers with the text and an `ETag` made from the
 * text's `hashCode()`.
 */
module UserPreferencesService {
  import opened Wrappers
  import opened JavaLang
  import opened Http

  const TRUE: string := "true"
  const FALSE: string := "false"
  const NO_PERMISSION: string := "You don't have permission to read settings"
  const IMMEDIATE_PLACEHOLDER: string := "%1"
  const DAILY_PLACEHOLDER: string := "%2"

  /** The caller: `user.getName()` and `user.canReadPolicies()`. */
  datatype Principal = Principal(name: string, canReadPolicies: bool)

  /** A stored `SettingsValues` record. */
  datatype SettingsValues = SettingsValues(immediateEmail: bool, dailyEmail: bool)

  /** A response entity: a plain string, or a `Msg` object carrying a message. */
  datatype Body = Plain(text: string) | Msg(message: string)

  /**
   * What `SettingsValues.findById(name)` does: return a record, return `null`,
   * or throw an exception with the given message.
   */
  datatype Lookup = Found(values: SettingsValues) | NotFound | Failed(message: string)

  /** `b ? TRUE : FALSE`. */
  function FlagText(b: bool): (r: string)
    ensures r == "true" || r == "false"
    ensures r == "true" <==> b
  {
    if b then TRUE else FALSE
  }

  /** The flag literals are non-empty and contain no `%`, `1` or `2`. */
  lemma FlagTextIsPlain(b: bool)
    ensures |FlagText(b)| > 0
    ensures '%' !in FlagText(b)
    ensures SharesNoChar(FlagText(b), IMMEDIATE_PLACEHOLDER)
    ensures SharesNoChar(FlagText(b), DAILY_PLACEHOLDER)
  {
  }

  /**
   * The template with every `%1` replaced by the first flag and then every
   * `%2` replaced by the second.  No placeholder is left over, and a
   * template without placeholders comes back as it was.
   */
  function Rendered(template: string, immediateEmail: bool, dailyEmail: bool): (r: string)
    ensures !Contains(r, "%1") && !Contains(r, "%2")
    ensures !Contains(template, "%1") && !Contains(template, "%2") ==> r == template
  {
    var first := ReplaceAll(template, IMMEDIATE_PLACEHOLDER, FlagText(immediateEmail));
    var second := ReplaceAll(first, DAILY_PLACEHOLDER, FlagText(dailyEmail));
    FlagTextIsPlain(immediateEmail);
    FlagTextIsPlain(dailyEmail);
    ReplaceAllRemovesTarget(template, IMMEDIATE_PLACEHOLDER, FlagText(immediateEmail));
    ReplaceAllKeepsAbsent(first, DAILY_PLACEHOLDER, FlagText(dailyEmail), IMMEDIATE_PLACEHOLDER);
    ReplaceAllRemovesTarget(first, DAILY_PLACEHOLDER, FlagText(dailyEmail));
    second
  }

  /** Text with no `%` is left alone by either replacement. */
  lemma ReplaceAllOfPlain(x: string, t: string, r: string)
    requires |t| > 0 && t[0] == '%' && '%' !in x
    ensures ReplaceAll(x, t, r) == x
  {
  }

  /** The `%1` pass over a two-slot template fills the first slot only. */
  lemma ImmediatePass(a: string, b: string, c: string, e: string)
    requires '%' !in a && '%' !in b && '%' !in c
    ensures ReplaceAll(a + "%1" + b + "%2" + c, IMMEDIATE_PLACEHOLDER, e) == a + e + b + "%2" + c
  {
    var one := IMMEDIATE_PLACEHOLDER;
    var tail := "%2" + c;
    assert ReplaceAll(tail, one, e) == tail by {
      assert tail[..2] != one;
      assert tail[1..] == "2" + c;
      ReplaceAllOfPlain("2" + c, one, e);
      assert tail == ['%'] + ("2" + c);
    }
    calc {
      ReplaceAll(a + "%1" + b + "%2" + c, one, e);
      { assert a + "%1" + b + "%2" + c == a + ("%1" + (b + tail)); }
      ReplaceAll(a + ("%1" + (b + tail)), one, e);
      { ReplaceAllSkipsPrefix(a, "%1" + (b + tail), one, e); }
      a + ReplaceAll("%1" + (b + tail), one, e);
      { ReplaceAllAtTarget(b + tail, one, e); }
      a + (e + ReplaceAll(b + tail, one, e));
      { ReplaceAllSkipsPrefix(b, tail, one, e); }
      a + (e + (b + tail));
      a + e + b + "%2" + c;
    }
  }

  /** The `%2` pass over text with a single `%` fills that slot. */
  lemma DailyPass(x: string, c: string, d: string)
    requires '%' !in x && '%' !in c
    ensures ReplaceAll(x + "%2" + c, DAILY_PLACEHOLDER, d) == x + d + c
  {
    var two := DAILY_PLACEHOLDER;
    calc {
      ReplaceAll(x + "%2" + c, two, d);
      { assert x + "%2" + c == x + ("%2" + c); }
      ReplaceAll(x + ("%2" + c), two, d);
      { ReplaceAllSkipsPrefix(x, "%2" + c, two, d); }
      x + ReplaceAll("%2" + c, two, d);
      { ReplaceAllAtTarget(c, two, d); }
      x + (d + ReplaceAll(c, two, d));
      { ReplaceAllOfPlain(c, two, d); }
      x + (d + c);
    }
  }

  /**
   * A template with one `%1` followed by one `%2`, and no other `%`, gets the
   * first flag in the first slot and the second flag in the second.
   */
  lemma RenderedTwoSlots(a: string, b: string, c: string, immediateEmail: bool, dailyEmail: bool)
    requires '%' !in a && '%' !in b && '%' !in c
    ensures Rendered(a + "%1" + b + "%2" + c, immediateEmail, dailyEmail)
            == a + FlagText(immediateEmail) + b + FlagText(dailyEmail) + c
  {
    var e, d := FlagText(immediateEmail), FlagText(dailyEmail);
    FlagTextIsPlain(immediateEmail);
    ImmediatePass(a, b, c, e);
    assert '%' !in a + e + b;
    DailyPass(a + e + b, c, d);
  }

  /** The two flags a lookup supplies: the record's, or `false` for both when there is none. */
  function Flags(lookup: Lookup): (bool, bool)
    requires !lookup.Failed?
  {
    match lookup
    case Found(v) => (v.immediateEmail, v.dailyEmail)
    case NotFound => (false, false)
  }

  /** The response `getSettingsSchema` builds for an authorized caller whose lookup went as `lookup`. */
  function SettingsResponse(canReadPolicies: bool, settingsString: string, lookup: Lookup): (r: Response<Body>)
    ensures !canReadPolicies ==>
              && r.status == Forbidden
              && r.entity == Some(Plain("You don't have permission to read settings"))
              && r.mediaType == Some("text/plain")
              && r.headers == map[]
    ensures canReadPolicies && lookup.Failed? ==>
              && r.status == InternalServerError
              && r.entity == Some(Msg(lookup.message))
              && r.mediaType == None
              && r.headers == map[]
    ensures canReadPolicies && lookup.NotFound? ==>
              r.entity == Some(Plain(Rendered(settingsString, false, false)))
    ensures canReadPolicies && lookup.Found? ==>
              r.entity == Some(Plain(Rendered(settingsString, lookup.values.immediateEmail, lookup.values.dailyEmail)))
    ensures canReadPolicies && !lookup.Failed? ==>
              && r.status == Ok
              && r.mediaType == None
              && r.entity.Some? && r.entity.value.Plain?
              && !Contains(r.entity.value.text, "%1") && !Contains(r.entity.value.text, "%2")
              && r.headers.Keys == {"ETag"}
              && |r.headers["ETag"]| == 1 && r.headers["ETag"][0].EntityTag?
              && ParseInt(r.headers["ETag"][0].tag) == Some(HashCode(r.entity.value.text))
              && IsCanonicalDecimal(r.headers["ETag"][0].tag)
              && r.headers["ETag"][0].tag == DecimalString(HashCode(r.entity.value.text) as int)
  {
    if !canReadPolicies then
      Response(Forbidden, map[], Some(TEXT_PLAIN), Some(Plain(NO_PERMISSION)))
    else if lookup.Failed? then
      Response(InternalServerError, map[], None, Some(Msg(lookup.message)))
    else
      var (immediateEmail, dailyEmail) := Flags(lookup);
      var text := Rendered(settingsString, immediateEmail, dailyEmail);
      ParseIntOfDecimal(HashCode(text));
      Response(Ok, AddHeader(map[], ETAG, EntityTag(DecimalString(HashCode(text) as int))), None, Some(Plain(text)))
  }

  /** A caller without permission gets the same answer whatever the store holds. */
  lemma ForbiddenIgnoresStore(settingsString: string, l1: Lookup, l2: Lookup)
    ensures SettingsResponse(false, settingsString, l1) == SettingsResponse(false, settingsString, l2)
  {
  }

  /** Equal rendered text gives an equal `ETag`. */
  lemma SameTextSameETag(t1: string, t2: string, l1: Lookup, l2: Lookup)
    requires !l1.Failed? && !l2.Failed?
    requires SettingsResponse(true, t1, l1).entity == SettingsResponse(true, t2, l2).entity
    ensures SettingsResponse(true, t1, l1) == SettingsResponse(true, t2, l2)
  {
  }

  /**
   * The persistence layer behind `SettingsValues.findById`: the stored records
   * by user name, an optional fault (the message of the exception every
   * lookup then throws), and the number of lookups made so far.
   */
  class SettingsStore {
    var records: map<string, SettingsValues>
    var fault: Option<string>
    var lookups: nat

    constructor (records: map<string, SettingsValues>, fault: Option<string>)
      ensures this.records == records && this.fault == fault && lookups == 0
    {
      this.records, this.fault, lookups := records, fault, 0;
    }

    /** What a lookup of `id` yields. */
    function Outcome(id: string): Lookup
      reads this
    {
      if fault.Some? then Failed(fault.value)
      else if id in records then Found(records[id])
      else NotFound
    }

    /** `SettingsValues.findById(id)`. */
    method FindById(id: string) returns (result: Lookup)
      modifies this`lookups
      ensures result == Outcome(id)
      ensures lookups == old(lookups) + 1
    {
      lookups := lookups + 1;
      result := Outcome(id);
    }
  }

  /**
   * `getSettingsSchema()` with the caller `user`, the template
   * `settingsString` and the store behind `findById`.  A caller without
   * permission is answered before any lookup.
   */
  method GetSettingsSchema(user: Principal, settingsString: string, store: SettingsStore)
    returns (result: Response<Body>)
    modifies store`lookups
    ensures result == SettingsResponse(user.canReadPolicies, settingsString, store.Outcome(user.name))
    ensures store.lookups == old(store.lookups) + (if user.canReadPolicies then 1 else 0)
  {
    if !user.canReadPolicies {
      var forbidden := new ResponseBuilder.FromStatus(Forbidden);
      forbidden.Entity(Plain(NO_PERMISSION));
      forbidden.Type(TEXT_PLAIN);
      return forbidden.Build();
    }

    var response: string;
    var builder: ResponseBuilder<Body>;
    response := settingsString;
    var values := store.FindById(user.name);
    if values.Failed? {
      // the catch block: the exception's message goes into a Msg entity
      builder := new ResponseBuilder.ServerError();
      builder.Entity(Msg(values.message));
    } else {
      if values.Found? {
        response := ReplaceAll(response, IMMEDIATE_PLACEHOLDER, if values.values.immediateEmail then TRUE else FALSE);
        response := ReplaceAll(response, DAILY_PLACEHOLDER, if values.values.dailyEmail then TRUE else FALSE);
      } else {
        // no record yet: use the defaults
        response := ReplaceAll(response, IMMEDIATE_PLACEHOLDER, FALSE);
        response := ReplaceAll(response, DAILY_PLACEHOLDER, FALSE);
      }
      builder := new ResponseBuilder.WithEntity(Plain(response));
      var etag := EntityTag(DecimalString(HashCode(response) as int));
      builder.Header(ETAG, etag);
    }
    result := builder.Build();
  }
}
