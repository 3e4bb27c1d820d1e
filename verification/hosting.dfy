/** `CodingIncidentTool.IsRunningLocally`: decides between the local client-secret
    credential and the deployed managed-identity credential.  `Uri.TryCreate`,
    `IPAddress.TryParse` and `IPAddress.IsLoopback` are library code and enter the
    model as the uninterpreted functions of a `UriFacts` value. */
module Hosting {
  import opened Wrappers
  import opened Text
  import opened AppConfig

  /** The bytes of an IPv4 or IPv6 address. */
  type IpAddress = seq<bv8>

  /** What the .NET URI and IP parsers say about a string. */
  datatype UriFacts = UriFacts(
    /** `Uri.TryCreate(s, UriKind.Absolute, out uri)`: the `uri.Host` on success. */
    tryCreateHost: string -> Option<string>,
    /** `IPAddress.TryParse(host, out ip)`. */
    tryParseIp: string -> Option<IpAddress>,
    /** `IPAddress.IsLoopback(ip)`. */
    isLoopback: IpAddress -> bool)

  /** An exception escaping the probe, identified by its message. */
  datatype Fault = Fault(message: string)

  const NullReferenceMessage := "Object reference not set to an instance of an object."
  const EnvironmentVariable := "ASPNETCORE_ENVIRONMENT"
  const UrlsVariable := "ASPNETCORE_URLS"
  const DefaultUrls := "http://localhost"

  /** The `ASPNETCORE_URLS` entries the probe scans, the fallback applied. */
  function Endpoints(env: ProcessEnvironment): seq<string> {
    SplitNonEmpty(env.Get(UrlsVariable).GetOr(DefaultUrls), ';')
  }

  predicate IsDevelopment(env: ProcessEnvironment) {
    env.Get(EnvironmentVariable).Some?
    && EqualsIgnoreCase(env.Get(EnvironmentVariable).value, "Development")
  }

  /** Reference definition: an endpoint is local when it is an absolute URI whose
      host is a loopback IP address or, not being an IP address, is `localhost`. */
  predicate IsLocalEndpoint(url: string, facts: UriFacts) {
    match facts.tryCreateHost(url)
    case None => false
    case Some(host) =>
      match facts.tryParseIp(host)
      case Some(ip) => facts.isLoopback(ip)
      case None => EqualsIgnoreCase(host, "localhost")
  }

  // ---------------------------------------------------------------------------
  // The probe as written.  `A && B ? C : D` groups as `(A && B) ? C : D`, so an
  // entry that `Uri.TryCreate` rejects reaches `uri!.Host` with a null `uri`.

  /** The `foreach` over the entries, as the source evaluates its condition.  The
      only exception it can raise is the null dereference, and only for an entry
      `Uri.TryCreate` rejects; a `true` answer comes from a local entry. */
  function ScanAsWritten(urls: seq<string>, facts: UriFacts): (r: Result<bool, Fault>)
    ensures r.Failure? ==> r.error == Fault(NullReferenceMessage)
    ensures r.Failure? ==> exists url :: url in urls && facts.tryCreateHost(url).None?
    ensures r == Success(true) ==> exists url :: url in urls && IsLocalEndpoint(url, facts)
  {
    if urls == [] then Success(false)
    else
      match facts.tryCreateHost(urls[0])
      case None => Failure(Fault(NullReferenceMessage))
      case Some(_) =>
        // Once `uri` is non-null the condition is the reference test itself.
        if IsLocalEndpoint(urls[0], facts) then Success(true)
        else
          var rest := ScanAsWritten(urls[1..], facts);
          assert forall url :: url in urls[1..] ==> url in urls;
          rest
  }

  /** `IsRunningLocally` as written: a Development environment answers true at
      once; otherwise the scan decides, and may throw. */
  function IsRunningLocallyAsWritten(env: ProcessEnvironment, facts: UriFacts): (r: Result<bool, Fault>)
    ensures IsDevelopment(env) ==> r == Success(true)
    ensures r.Failure? ==> r.error == Fault(NullReferenceMessage)
    ensures r.Failure? ==> exists url :: url in Endpoints(env) && facts.tryCreateHost(url).None?
  {
    if IsDevelopment(env) then Success(true) else ScanAsWritten(Endpoints(env), facts)
  }

  /** An entry `Uri.TryCreate` rejects, with no local entry before it. */
  predicate ThrowsAt(urls: seq<string>, facts: UriFacts, i: int) {
    0 <= i < |urls| && facts.tryCreateHost(urls[i]).None?
    && forall j :: 0 <= j < i ==> !IsLocalEndpoint(urls[j], facts)
  }

  /** The as-written scan throws exactly when an unparsable entry comes before
      every local one. */
  lemma {:induction false} ScanAsWrittenThrows(urls: seq<string>, facts: UriFacts)
    ensures ScanAsWritten(urls, facts).Failure? <==> exists i :: ThrowsAt(urls, facts, i)
  {
    if urls != [] {
      ScanAsWrittenThrows(urls[1..], facts);
      if facts.tryCreateHost(urls[0]).Some? && !IsLocalEndpoint(urls[0], facts) {
        ThrowsAtShift(urls, facts);
      } else if facts.tryCreateHost(urls[0]).None? {
        assert ThrowsAt(urls, facts, 0);
      } else {
        forall i | 0 < i < |urls| ensures !ThrowsAt(urls, facts, i) {
          assert IsLocalEndpoint(urls[0], facts);
        }
      }
    }
  }

  /** Past a parsable, non-local first entry, the throwing positions shift by one. */
  lemma ThrowsAtShift(urls: seq<string>, facts: UriFacts)
    requires urls != [] && facts.tryCreateHost(urls[0]).Some? && !IsLocalEndpoint(urls[0], facts)
    ensures (exists i :: ThrowsAt(urls, facts, i)) <==> exists i :: ThrowsAt(urls[1..], facts, i)
  {
    forall i | ThrowsAt(urls[1..], facts, i) ensures ThrowsAt(urls, facts, i + 1) {
      forall j | 0 <= j < i + 1 ensures !IsLocalEndpoint(urls[j], facts) {
        if j > 0 { assert urls[j] == urls[1..][j - 1]; }
      }
    }
    forall i | ThrowsAt(urls, facts, i) ensures ThrowsAt(urls[1..], facts, i - 1) {
      assert i != 0;
      forall j | 0 <= j < i - 1 ensures !IsLocalEndpoint(urls[1..][j], facts) {
        assert urls[1..][j] == urls[j + 1];
      }
    }
  }

  /** When the as-written scan does not throw, it answers whether some entry is local. */
  lemma {:induction false} ScanAsWrittenAnswers(urls: seq<string>, facts: UriFacts)
    ensures ScanAsWritten(urls, facts).Success? ==>
      (ScanAsWritten(urls, facts).value <==> exists i :: 0 <= i < |urls| && IsLocalEndpoint(urls[i], facts))
  {
    if urls != [] && facts.tryCreateHost(urls[0]).Some? && !IsLocalEndpoint(urls[0], facts) {
      ScanAsWrittenAnswers(urls[1..], facts);
      if exists i :: 0 <= i < |urls| && IsLocalEndpoint(urls[i], facts) {
        var i :| 0 <= i < |urls| && IsLocalEndpoint(urls[i], facts);
        assert i > 0 && urls[1..][i - 1] == urls[i];
      }
      if exists i :: 0 <= i < |urls| - 1 && IsLocalEndpoint(urls[1..][i], facts) {
        var i :| 0 <= i < |urls| - 1 && IsLocalEndpoint(urls[1..][i], facts);
        assert urls[i + 1] == urls[1..][i];
      }
    }
  }

  /** A concrete input that shows the fault: an environment whose only URL entry
      is not an absolute URI (`Uri.TryCreate` fails on it) makes the probe throw a
      `NullReferenceException` instead of answering `false`. */
  lemma AsWrittenThrowsOnRelativeUrl()
    ensures var env := ProcessEnvironment(map[UrlsVariable := "app"]);
            var facts := UriFacts(_ => None, _ => None, _ => false);
            IsRunningLocallyAsWritten(env, facts) == Failure(Fault(NullReferenceMessage))
              && !IsRunningLocally(env, facts)
  {
    var env := ProcessEnvironment(map[UrlsVariable := "app"]);
    var facts := UriFacts(_ => None, _ => None, _ => false);
    assert !IsDevelopment(env);
    assert env.Get(UrlsVariable) == Some("app");
    SplitWithoutSeparator("app", ';');
    ScanLocalIsExists(["app"], facts);
  }

  // ---------------------------------------------------------------------------
  // The probe as evidently intended: `TryCreate && (TryParse ? IsLoopback : Host
  // == "localhost")`, an unparsable entry simply not being local.

  function ScanLocal(urls: seq<string>, facts: UriFacts): bool {
    if urls == [] then false
    else IsLocalEndpoint(urls[0], facts) || ScanLocal(urls[1..], facts)
  }

  /** The scan finds a local endpoint exactly when one exists. */
  lemma {:induction false} ScanLocalIsExists(urls: seq<string>, facts: UriFacts)
    ensures ScanLocal(urls, facts) <==> exists i :: 0 <= i < |urls| && IsLocalEndpoint(urls[i], facts)
    ensures ScanLocal(urls, facts) <==> exists url :: url in urls && IsLocalEndpoint(url, facts)
  {
    if exists url :: url in urls && IsLocalEndpoint(url, facts) {
      var url :| url in urls && IsLocalEndpoint(url, facts);
      var i :| 0 <= i < |urls| && urls[i] == url;
    }
    if urls != [] {
      ScanLocalIsExists(urls[1..], facts);
      if exists i :: 0 <= i < |urls| && IsLocalEndpoint(urls[i], facts) {
        var i :| 0 <= i < |urls| && IsLocalEndpoint(urls[i], facts);
        if i > 0 { assert urls[1..][i - 1] == urls[i]; }
      }
      if exists i :: 0 <= i < |urls| - 1 && IsLocalEndpoint(urls[1..][i], facts) {
        var i :| 0 <= i < |urls| - 1 && IsLocalEndpoint(urls[1..][i], facts);
        assert urls[i + 1] == urls[1..][i];
      }
    }
  }

  /** `IsRunningLocally` with the intended grouping.  Local means: a Development
      environment (any case), or some non-empty `;`-separated URL entry,
      `http://localhost` when the variable is unset, that is local. */
  function IsRunningLocally(env: ProcessEnvironment, facts: UriFacts): (r: bool)
    ensures r <==>
      IsDevelopment(env) || exists url :: url in Endpoints(env) && IsLocalEndpoint(url, facts)
  {
    ScanLocalIsExists(Endpoints(env), facts);
    IsDevelopment(env) || ScanLocal(Endpoints(env), facts)
  }

  /** With `ASPNETCORE_URLS` unset the fallback `http://localhost` is scanned, so
      the probe answers true (given what the URI parser makes of that string). */
  lemma UnsetUrlsIsLocal(env: ProcessEnvironment, facts: UriFacts)
    requires UrlsVariable !in env.variables
    requires facts.tryCreateHost(DefaultUrls) == Some("localhost")
    requires facts.tryParseIp("localhost") == None
    ensures IsRunningLocally(env, facts)
    ensures IsRunningLocallyAsWritten(env, facts) == Success(true)
  {
    SplitWithoutSeparator(DefaultUrls, ';');
    assert Endpoints(env) == [DefaultUrls];
    assert IsLocalEndpoint(DefaultUrls, facts) by {
      EqualsLocalhost();
    }
    LocalFirstAnswersTrue([DefaultUrls], facts);
  }

  lemma EqualsLocalhost()
    ensures EqualsIgnoreCase("localhost", "localhost")
  {
  }

  /** A scan whose first entry is local answers true at once, as written. */
  lemma LocalFirstAnswersTrue(urls: seq<string>, facts: UriFacts)
    requires urls != [] && IsLocalEndpoint(urls[0], facts)
    ensures ScanAsWritten(urls, facts) == Success(true)
  {
  }

  /** A scan whose first entry `Uri.TryCreate` rejects throws at once, as written. */
  lemma UnparsableFirstThrows(urls: seq<string>, facts: UriFacts)
    requires urls != [] && facts.tryCreateHost(urls[0]).None?
    ensures ScanAsWritten(urls, facts) == Failure(Fault(NullReferenceMessage))
  {
  }

  /** Two non-empty entries joined by `;` are scanned as those two, in order. */
  lemma EndpointsOfPair(first: string, second: string)
    requires first != [] && second != [] && ';' !in first && ';' !in second
    ensures Endpoints(ProcessEnvironment(map[UrlsVariable := first + ";" + second])) == [first, second]
  {
    var env := ProcessEnvironment(map[UrlsVariable := first + ";" + second]);
    assert env.Get(UrlsVariable) == Some(first + [';'] + second);
    SplitNonEmptyCons(first, ';', second);
    SplitWithoutSeparator(second, ';');
  }

  /** The as-written probe depends on the order of the entries, because
      `Split(';', RemoveEmptyEntries)` keeps it: an unparsable entry before a
      local one throws, the same entries the other way round answer true. */
  lemma AsWrittenDependsOnOrder(bad: string, good: string, facts: UriFacts)
    requires bad != [] && good != [] && ';' !in bad && ';' !in good
    requires facts.tryCreateHost(bad).None? && IsLocalEndpoint(good, facts)
    ensures var badFirst := ProcessEnvironment(map[UrlsVariable := bad + ";" + good]);
            var goodFirst := ProcessEnvironment(map[UrlsVariable := good + ";" + bad]);
            && IsRunningLocallyAsWritten(badFirst, facts) == Failure(Fault(NullReferenceMessage))
            && IsRunningLocallyAsWritten(goodFirst, facts) == Success(true)
            && IsRunningLocally(badFirst, facts) && IsRunningLocally(goodFirst, facts)
  {
    var badFirst := ProcessEnvironment(map[UrlsVariable := bad + ";" + good]);
    var goodFirst := ProcessEnvironment(map[UrlsVariable := good + ";" + bad]);
    assert !IsDevelopment(badFirst) && !IsDevelopment(goodFirst);
    EndpointsOfPair(bad, good);
    EndpointsOfPair(good, bad);
    UnparsableFirstThrows([bad, good], facts);
    LocalFirstAnswersTrue([good, bad], facts);
    assert good in Endpoints(badFirst) && good in Endpoints(goodFirst);
  }

  /** The as-written and the intended probe agree whenever the as-written one does
      not throw, and it never throws when every entry is an absolute URI. */
  lemma AsWrittenAgreesWhenNoFault(env: ProcessEnvironment, facts: UriFacts)
    ensures IsRunningLocallyAsWritten(env, facts).Success? ==>
      IsRunningLocallyAsWritten(env, facts).value == IsRunningLocally(env, facts)
    ensures (forall url :: url in Endpoints(env) ==> facts.tryCreateHost(url).Some?) ==>
      IsRunningLocallyAsWritten(env, facts) == Success(IsRunningLocally(env, facts))
  {
    var eps := Endpoints(env);
    ScanAsWrittenThrows(eps, facts);
    ScanAsWrittenAnswers(eps, facts);
    ScanLocalIsExists(eps, facts);
  }
}
