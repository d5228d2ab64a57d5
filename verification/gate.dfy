/** The module-disable gate between the host shell and this micro-frontend.
    The host posts `{type: "mfe-toggle", disabled: [...]}` to the page; a
    listener accepts it only from a trusted origin, persists the list under
    "mfe-disabled" and reloads unless the page runs inside the bridge. A
    second listener reloads when another document changes that key. On
    render, the root component reads the key back and shows a placeholder
    when the stored list names "@org/playground". */
module Gate {
  import opened Common

  const DisabledKey := "mfe-disabled"
  const ToggleType := "mfe-toggle"
  const BridgeFlag := "mfe-bridge=1"
  const ModuleName := "@org/playground"

  // ---------------------------------------------------------------------
  // Origins
  // ---------------------------------------------------------------------

  /** `(:\d+)?$`: nothing, or a colon and at least one digit, and then
      the end of the string. */
  predicate IsPortSuffix(p: string)
  {
    p == "" || (|p| >= 2 && p[0] == ':' && AllDigits(p[1..]))
  }

  /** `^https?:\/\/`: what follows the scheme, if the origin has one. */
  function AfterScheme(origin: string): (rest: Option<string>)
  {
    if "http://" <= origin then Some(origin[7..])
    else if "https://" <= origin then Some(origin[8..])
    else None
  }

  /** `(localhost|127\.0\.0\.1)`: what follows the host, if the rest has
      one of the two (both are nine characters long). */
  function AfterHost(rest: string): (port: Option<string>)
  {
    if "localhost" <= rest then Some(rest[9..])
    else if "127.0.0.1" <= rest then Some(rest[9..])
    else None
  }

  /** The regular expression `^https?:\/\/(localhost|127\.0\.0\.1)(:\d+)?$`
      as a left-to-right matcher. */
  predicate MatchesLocalDev(origin: string)
  {
    var afterScheme := AfterScheme(origin);
    afterScheme.Some? &&
    var afterHost := AfterHost(afterScheme.value);
    afterHost.Some? && IsPortSuffix(afterHost.value)
  }

  predicate IsWebScheme(scheme: string)
  {
    scheme == "http://" || scheme == "https://"
  }

  predicate IsLoopbackHost(host: string)
  {
    host == "localhost" || host == "127.0.0.1"
  }

  /** The same language, stated as a scheme, a loopback host and an
      optional port, one after the other. */
  ghost predicate LocalDevOrigin(origin: string)
  {
    exists scheme, host, port | IsWebScheme(scheme) && IsLoopbackHost(host) && IsPortSuffix(port) ::
      origin == scheme + host + port
  }

  /** isTrustedOrigin: the page's own origin, or a local development
      origin. */
  predicate IsTrustedOrigin(origin: string, pageOrigin: string)
  {
    origin == pageOrigin || MatchesLocalDev(origin)
  }

  lemma PrefixSplit(s: string, p: string)
    requires p <= s
    ensures s == p + s[|p|..]
  {
  }

  lemma MatcherSound(origin: string)
    requires MatchesLocalDev(origin)
    ensures LocalDevOrigin(origin)
  {
    var rest := AfterScheme(origin).value;
    var port := AfterHost(rest).value;
    var scheme := SchemeOf(origin);
    var host := HostOf(rest);
    assert origin == scheme + host + port;
  }

  lemma SchemeOf(origin: string) returns (scheme: string)
    requires AfterScheme(origin).Some?
    ensures IsWebScheme(scheme)
    ensures origin == scheme + AfterScheme(origin).value
  {
    scheme := if "http://" <= origin then "http://" else "https://";
    PrefixSplit(origin, scheme);
  }

  lemma HostOf(rest: string) returns (host: string)
    requires AfterHost(rest).Some?
    ensures IsLoopbackHost(host)
    ensures rest == host + AfterHost(rest).value
  {
    host := if "localhost" <= rest then "localhost" else "127.0.0.1";
    PrefixSplit(rest, host);
  }

  lemma MatcherComplete(origin: string, scheme: string, host: string, port: string)
    requires IsWebScheme(scheme) && IsLoopbackHost(host) && IsPortSuffix(port)
    requires origin == scheme + host + port
    ensures MatchesLocalDev(origin)
  {
    assert origin == scheme + (host + port);
    assert scheme <= origin;
    if scheme == "https://" {
      assert origin[4] == 's';
      assert !("http://" <= origin);
    }
    assert AfterScheme(origin) == Some(host + port);
    assert host <= host + port;
    if host == "127.0.0.1" {
      assert (host + port)[0] == '1';
      assert !("localhost" <= host + port);
    }
    assert (host + port)[9..] == port;
    assert AfterHost(host + port) == Some(port);
  }

  /** Apart from the page's own origin, an origin is trusted exactly when
      it is `http` or `https`, then `://`, then `localhost` or `127.0.0.1`,
      then optionally `:` and one or more digits. */
  lemma TrustedOriginCharacterized(origin: string, pageOrigin: string)
    ensures IsTrustedOrigin(origin, pageOrigin) <==> origin == pageOrigin || LocalDevOrigin(origin)
  {
    if MatchesLocalDev(origin) {
      MatcherSound(origin);
    }
    if LocalDevOrigin(origin) {
      var scheme, host, port :| IsWebScheme(scheme) && IsLoopbackHost(host) && IsPortSuffix(port) &&
        origin == scheme + host + port;
      MatcherComplete(origin, scheme, host, port);
    }
  }

  /** A local development origin carries no path and no trailing slash:
      after the scheme's `//` there is no further `/`. */
  lemma LocalDevHasNoPath(origin: string)
    requires MatchesLocalDev(origin)
    ensures |origin| >= 16
    ensures forall i | 8 <= i < |origin| :: origin[i] != '/'
  {
    var rest := AfterScheme(origin).value;
    var port := AfterHost(rest).value;
    var k := |origin| - |rest|;
    assert k == 7 || k == 8;
    assert origin[k..] == rest;
    assert rest[9..] == port;
    forall i | 8 <= i < |origin|
      ensures origin[i] != '/'
    {
      assert origin[i] == rest[i - k];
      if i - k >= 9 {
        assert rest[i - k] == port[i - k - 9];
        if i - k - 9 >= 1 {
          assert port[i - k - 9] == port[1..][i - k - 10];
        }
      }
    }
  }

  // ---------------------------------------------------------------------
  // Messages from the host shell
  // ---------------------------------------------------------------------

  /** JavaScript values, as far as the listener inspects them. Numbers are
      integers here. */
  datatype JsValue =
    | Undefined
    | Null
    | Bool(b: bool)
    | Num(n: int)
    | Str(s: string)
    | Arr(items: seq<JsValue>)
    | Obj(fields: map<string, JsValue>)

  /** JavaScript truthiness: `undefined`, `null`, `false`, `0` and `""` are
      falsy. */
  predicate Truthy(v: JsValue)
  {
    match v
    case Undefined => false
    case Null => false
    case Bool(b) => b
    case Num(n) => n != 0
    case Str(s) => s != ""
    case Arr(_) => true
    case Obj(_) => true
  }

  /** `v[key]` on a value that is not null or undefined: an own field of an
      object, `undefined` otherwise. */
  function Property(v: JsValue, key: string): (value: JsValue)
  {
    if v.Obj? && key in v.fields then v.fields[key] else Undefined
  }

  datatype MessageEvent = MessageEvent(origin: string, data: JsValue)

  /** The shape the listener accepts: data present, `type` equal to
      "mfe-toggle" and `disabled` an array. */
  predicate IsToggleMessage(data: JsValue)
  {
    Truthy(data) && Property(data, "type") == Str(ToggleType) && Property(data, "disabled").Arr?
  }

  /** `haystack.includes(needle)`. */
  predicate Contains(haystack: string, needle: string)
    decreases |haystack|
  {
    needle <= haystack || (haystack != [] && Contains(haystack[1..], needle))
  }

  lemma {:induction false} ContainsInfix(before: string, needle: string, after: string)
    ensures Contains(before + needle + after, needle)
    decreases |before|
  {
    if before != [] {
      assert (before + needle + after)[1..] == before[1..] + needle + after;
      ContainsInfix(before[1..], needle, after);
    }
  }

  /** `includes` finds the needle only where it occurs: a match splits
      the haystack into a part before the needle and a part after it. */
  lemma {:induction false} ContainsSound(haystack: string, needle: string) returns (before: string, after: string)
    requires Contains(haystack, needle)
    ensures haystack == before + needle + after
    decreases |haystack|
  {
    if needle <= haystack {
      before, after := "", haystack[|needle|..];
      PrefixSplit(haystack, needle);
    } else {
      var b, a := ContainsSound(haystack[1..], needle);
      before, after := [haystack[0]] + b, a;
      assert haystack == [haystack[0]] + haystack[1..];
    }
  }

  /** `needle` occurs somewhere in `haystack`. */
  ghost predicate Occurs(haystack: string, needle: string)
  {
    exists before, after :: haystack == before + needle + after
  }

  /** `includes` decides exactly whether the needle occurs. */
  lemma ContainsCharacterized(haystack: string, needle: string)
    ensures Contains(haystack, needle) <==> Occurs(haystack, needle)
  {
    if Contains(haystack, needle) {
      var before, after := ContainsSound(haystack, needle);
    }
    if Occurs(haystack, needle) {
      var before, after :| haystack == before + needle + after;
      ContainsInfix(before, needle, after);
    }
  }

  /** What the message listener does with one event. */
  datatype Reaction =
    | Ignore
    | WriteFailed
    | Persist(value: string, reload: bool)

  /** The message listener as a decision: ignore the event, fail to write
      (the storage write threw), or persist the serialized list and reload
      unless the query string carries the bridge flag. */
  function DecideMessage(ev: MessageEvent, pageOrigin: string, search: string,
                         storageWritable: bool, stringify: JsValue -> string): (reaction: Reaction)
    ensures !IsTrustedOrigin(ev.origin, pageOrigin) ==> reaction == Ignore
    ensures !IsToggleMessage(ev.data) ==> reaction == Ignore
    ensures IsTrustedOrigin(ev.origin, pageOrigin) && IsToggleMessage(ev.data) ==>
      if storageWritable then
        reaction == Persist(stringify(Property(ev.data, "disabled")), !Contains(search, BridgeFlag))
      else reaction == WriteFailed
  {
    if !IsTrustedOrigin(ev.origin, pageOrigin) then Ignore
    else if !IsToggleMessage(ev.data) then Ignore
    else if !storageWritable then WriteFailed
    else Persist(stringify(Property(ev.data, "disabled")), !Contains(search, BridgeFlag))
  }

  /** An accepted, written toggle reloads the page exactly when
      "mfe-bridge=1" occurs nowhere in the query string. */
  lemma ReloadUnlessBridged(ev: MessageEvent, pageOrigin: string, search: string, stringify: JsValue -> string)
    requires IsTrustedOrigin(ev.origin, pageOrigin) && IsToggleMessage(ev.data)
    ensures DecideMessage(ev, pageOrigin, search, true, stringify).Persist?
    ensures DecideMessage(ev, pageOrigin, search, true, stringify).reload <==> !Occurs(search, BridgeFlag)
  {
    ContainsCharacterized(search, BridgeFlag);
  }

  // ---------------------------------------------------------------------
  // Reading the flag back
  // ---------------------------------------------------------------------

  /** The outcome of `localStorage.getItem("mfe-disabled")`. */
  datatype StoredRead = ReadThrew | Missing | Stored(raw: string)

  function ReadStored(storage: map<string, string>, accessible: bool): (read: StoredRead)
  {
    if !accessible then ReadThrew
    else if DisabledKey in storage then Stored(storage[DisabledKey])
    else Missing
  }

  /** `Array.isArray(parsed) && parsed.includes("@org/playground")`. */
  predicate ListsModule(v: JsValue)
  {
    v.Arr? && Str(ModuleName) in v.items
  }

  /** The render-time check: the module is disabled iff the stored text is
      non-empty, parses (`JSON.parse` returns None when it throws), and is
      an array holding "@org/playground". Every failure reads as enabled. */
  function ModuleDisabled(read: StoredRead, parse: string -> Option<JsValue>): (disabled: bool)
    ensures disabled ==> read.Stored? && read.raw != "" && parse(read.raw).Some?
    ensures disabled ==> ListsModule(parse(read.raw).value)
    ensures read.Stored? && read.raw != "" && parse(read.raw).Some? && ListsModule(parse(read.raw).value) ==> disabled
  {
    match read
    case ReadThrew => false
    case Missing => false
    case Stored(raw) =>
      if raw == "" then false
      else
        match parse(raw)
        case None => false
        case Some(parsed) => ListsModule(parsed)
  }

  /** Once an accepted toggle message has been persisted, the next render
      reads the module as disabled exactly when the posted list holds
      "@org/playground" (given that parsing undoes serializing). */
  lemma PersistedToggleDecidesGate(ev: MessageEvent, pageOrigin: string, search: string,
                                   stringify: JsValue -> string, parse: string -> Option<JsValue>,
                                   storage: map<string, string>)
    requires DecideMessage(ev, pageOrigin, search, true, stringify).Persist?
    requires stringify(Property(ev.data, "disabled")) != ""
    requires parse(stringify(Property(ev.data, "disabled"))) == Some(Property(ev.data, "disabled"))
    ensures var after := storage[DisabledKey := DecideMessage(ev, pageOrigin, search, true, stringify).value];
      ModuleDisabled(ReadStored(after, true), parse) <==> Str(ModuleName) in Property(ev.data, "disabled").items
  {
  }

  /** The window side of the gate: local storage and the reloads requested
      so far. */
  class HostWindow {
    const origin: string
    const search: string
    var storage: map<string, string>
    var reloads: nat

    constructor (origin: string, search: string, storage: map<string, string>)
      ensures this.origin == origin && this.search == search
      ensures this.storage == storage && reloads == 0
    {
      this.origin := origin;
      this.search := search;
      this.storage := storage;
      reloads := 0;
    }

    /** The `message` listener. `storageWritable` is false when
        `localStorage.setItem` throws. */
    method OnMessage(ev: MessageEvent, storageWritable: bool, stringify: JsValue -> string)
      modifies this`storage, this`reloads
      ensures var reaction := DecideMessage(ev, origin, search, storageWritable, stringify);
        && storage == (if reaction.Persist? then old(storage)[DisabledKey := reaction.value] else old(storage))
        && reloads == old(reloads) + (if reaction.Persist? && reaction.reload then 1 else 0)
    {
      if !IsTrustedOrigin(ev.origin, origin) {
        return;
      }
      var data := ev.data;
      if !Truthy(data) || Property(data, "type") != Str(ToggleType) || !Property(data, "disabled").Arr? {
        return;
      }
      if !storageWritable {
        return;
      }
      storage := storage[DisabledKey := stringify(Property(data, "disabled"))];
      if !Contains(search, BridgeFlag) {
        reloads := reloads + 1;
      }
    }

    /** The `storage` listener: `key` is None when the other document
        cleared the whole storage. */
    method OnStorage(key: Option<string>)
      modifies this`reloads
      ensures reloads == old(reloads) + (if key == Some(DisabledKey) then 1 else 0)
    {
      if key == Some(DisabledKey) {
        reloads := reloads + 1;
      }
    }
  }
}
