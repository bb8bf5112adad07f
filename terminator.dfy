/**
 * The `Terminator` object: its configuration fields, the choice of client at
 * construction, the dry-run switch read from the environment, the token clock of
 * username login, and one cycle of `run()` — the pod loop followed by the token
 * renewal check.
 *
 * Everything the cycle gets from outside is a parameter: the pod listing, the
 * clock readings (microseconds since 0001-01-01T00:00:00 UTC) and the validity
 * the login library reports when it issues a token.
 */
module PodTerminator {
  import opened Wrappers
  import opened Reaper

  /** Where `_get_client` gets its API client. */
  datatype ClientSource = CredentialLogin | AmbientConfig

  /** Username login when a username is configured, the local kubeconfig otherwise. */
  function ChooseClient(username: string): (c: ClientSource)
    ensures c == CredentialLogin <==> username != ""
    ensures c == AmbientConfig <==> username == ""
  {
    if username != "" then CredentialLogin else AmbientConfig
  }

  // ---------------------------------------------------------------- the DRY_RUN switch

  /**
   * `str.upper()` for the characters that can take part in the words TRUE and
   * YES: ASCII letters, and U+017F LATIN SMALL LETTER LONG S, whose upper case is
   * `S`. Other characters are kept as they are.
   */
  function UpperChar(c: char): char {
    if 'a' <= c <= 'z' then (c as int - 32) as char
    else if c == 'ſ' then 'S'
    else c
  }

  function Upper(s: string): (r: string)
    ensures |r| == |s|
    ensures forall i :: 0 <= i < |s| ==> r[i] == UpperChar(s[i])
  {
    if s == [] then [] else [UpperChar(s[0])] + Upper(s[1..])
  }

  /** `DRY_RUN.upper() == 'TRUE' or DRY_RUN.upper() == "YES"`. */
  predicate DryRunEnabled(setting: string) {
    Upper(setting) == "TRUE" || Upper(setting) == "YES"
  }

  /** The spellings that switch dry-run on: "true" and "yes" in any mix of cases (long s for s allowed). */
  lemma DryRunSpellings(setting: string)
    ensures DryRunEnabled(setting) <==>
      (|setting| == 4 && setting[0] in {'t', 'T'} && setting[1] in {'r', 'R'}
                      && setting[2] in {'u', 'U'} && setting[3] in {'e', 'E'})
      || (|setting| == 3 && setting[0] in {'y', 'Y'} && setting[1] in {'e', 'E'}
                         && setting[2] in {'s', 'S', 'ſ'})
  {
    var u := Upper(setting);
    if |setting| == 4 {
      assert u == "TRUE" <==> u[0] == 'T' && u[1] == 'R' && u[2] == 'U' && u[3] == 'E';
    } else if |setting| == 3 {
      assert u == "YES" <==> u[0] == 'Y' && u[1] == 'E' && u[2] == 'S';
    }
  }

  /** The default setting "False" leaves dry-run off. */
  lemma DryRunDefaultOff()
    ensures !DryRunEnabled("False")
  {
    DryRunSpellings("False");
  }

  // ---------------------------------------------------------------- token renewal

  /**
   * `token_age.total_seconds() > api_key_expires / 2`, with the token age in
   * microseconds and the validity in seconds, in exact integers.
   */
  predicate RenewalDue(nowMicros: int, tokenCreatedAt: int, apiKeyExpires: int) {
    2 * (nowMicros - tokenCreatedAt) > apiKeyExpires * MicrosPerSecond
  }

  /** Renewal is due strictly after the half-life, never at it. */
  lemma RenewalAtHalfLife(tokenCreatedAt: int, apiKeyExpires: int)
    ensures !RenewalDue(tokenCreatedAt + apiKeyExpires * (MicrosPerSecond / 2), tokenCreatedAt, apiKeyExpires)
    ensures RenewalDue(tokenCreatedAt + apiKeyExpires * (MicrosPerSecond / 2) + 1, tokenCreatedAt, apiKeyExpires)
  {
  }

  /**
   * Lines 70-79 of the pod loop, for the pod at position `i` of the listing: skip
   * it when its deletion timestamp is absent or empty, otherwise parse it.
   */
  method ReadStamp(pods: seq<PodSnapshot>, i: nat) returns (stamp: Stamp)
    requires i < |pods|
    ensures stamp == StampsOf(pods)[i]
  {
    StampsOfAt(pods, i);
    var pod := pods[i];
    if pod.deletionTimestamp.None? || pod.deletionTimestamp.value == "" {
      return NoStamp;
    }
    var deletedAt := Timestamp.ParseTimestamp(pod.deletionTimestamp.value);
    if deletedAt.None? {
      return Malformed;
    }
    return StampedAt(deletedAt.value);
  }

  /** What one cycle did: how the pod loop ended, and whether the token was renewed. */
  datatype CycleOutcome = CycleOutcome(sweep: SweepOutcome, renewed: bool)

  class Terminator {
    var api: string
    var username: string
    var password: string
    var dryRun: bool
    var namespace: Option<string>
    var cycleDelay: int
    var maxSeconds: int
    var client: ClientSource
    /** `_token_created_at`; kept, and meaningful, only under username login. */
    var tokenCreatedAt: int
    /** `api_key_expires` of the login configuration, in seconds; only under username login. */
    var apiKeyExpires: int

    /**
     * `Terminator(api, username, password, logger)`: default configuration, and
     * the client `_get_client` picks. Under username login the first token is
     * issued at `loginAt` with validity `loginExpires`.
     */
    constructor (api: string, username: string, password: string, loginAt: int, loginExpires: int)
      ensures this.api == api && this.username == username && this.password == password
      ensures !dryRun && namespace == None && cycleDelay == 10 && maxSeconds == 10
      ensures client == ChooseClient(username)
      ensures username != "" ==> tokenCreatedAt == loginAt && apiKeyExpires == loginExpires
    {
      this.api := api;
      this.username := username;
      this.password := password;
      dryRun := false;
      namespace := None;
      cycleDelay := 10;
      maxSeconds := 10;
      client := ChooseClient(username);
      if username != "" {
        tokenCreatedAt := loginAt;
        apiKeyExpires := loginExpires;
      } else {
        tokenCreatedAt := 0;
        apiKeyExpires := 0;
      }
    }

    /** The start-up assignments of `max_seconds`, `namespace`, `cycle_delay` and `dry_run`. */
    method Configure(maxSeconds: int, namespace: string, cycleDelay: int, dryRunSetting: string)
      modifies this`maxSeconds, this`namespace, this`cycleDelay, this`dryRun
      ensures this.maxSeconds == maxSeconds && this.namespace == Some(namespace) && this.cycleDelay == cycleDelay
      ensures dryRun == DryRunEnabled(dryRunSetting)
    {
      this.maxSeconds := maxSeconds;
      this.namespace := Some(namespace);
      this.cycleDelay := cycleDelay;
      if Upper(dryRunSetting) == "TRUE" || Upper(dryRunSetting) == "YES" {
        dryRun := true;
      } else {
        dryRun := false;
      }
    }

    /** `_ocp_get_token`: a new token, issued at `issuedAt` with validity `expires`. */
    method RenewToken(issuedAt: int, expires: int)
      modifies this`tokenCreatedAt, this`apiKeyExpires
      ensures tokenCreatedAt == issuedAt && apiKeyExpires == expires
    {
      tokenCreatedAt := issuedAt;
      apiKeyExpires := expires;
    }

    /**
     * The pod loop of `run()`: `nows[i]` is what `utcnow()` returns while
     * `pods[i]` is handled. Stops at the first timestamp that does not parse.
     */
    method SweepPods(pods: seq<PodSnapshot>, nows: seq<int>) returns (outcome: SweepOutcome)
      requires |nows| == |pods|
      ensures outcome == Sweep(pods, StampsOf(pods), nows, maxSeconds, dryRun)
    {
      ghost var stamps := StampsOf(pods);
      var deletes: seq<DeleteCommand> := [];
      var i := 0;
      while i < |pods|
        invariant 0 <= i <= |pods|
        invariant Sweep(pods[..i], stamps[..i], nows[..i], maxSeconds, dryRun) == Finished(deletes)
      {
        var pod := pods[i];
        var stamp := ReadStamp(pods, i);
        SweepStep(pods, stamps, nows, maxSeconds, dryRun, i);
        match stamp {
          case NoStamp =>
          case Malformed =>
            SweepStopsAtAbort(pods, stamps, nows, maxSeconds, dryRun, i + 1);
            return Aborted(deletes, i);
          case StampedAt(deletedAt) =>
            if nows[i] - deletedAt * MicrosPerSecond > maxSeconds * MicrosPerSecond && !dryRun {
              deletes := deletes + [ForceDelete(pod)];
            }
        }
        i := i + 1;
      }
      assert pods[..i] == pods && stamps[..i] == stamps && nows[..i] == nows;
      outcome := Finished(deletes);
    }

    /**
     * One cycle of `run()` after the listing: the pod loop, then, if it ran to
     * the end and username login is active, the token check; the token is
     * renewed at `renewedAt` (with the validity `renewedExpires` the login
     * reports) exactly when its age passed half its validity. Nothing else of the
     * object changes.
     */
    method RunCycle(pods: seq<PodSnapshot>, nows: seq<int>, tokenNow: int, renewedAt: int, renewedExpires: int)
      returns (outcome: CycleOutcome)
      requires |nows| == |pods|
      modifies this`tokenCreatedAt, this`apiKeyExpires
      ensures outcome.sweep == Sweep(pods, StampsOf(pods), nows, maxSeconds, dryRun)
      ensures outcome.renewed <==>
        outcome.sweep.Finished? && username != "" && RenewalDue(tokenNow, old(tokenCreatedAt), old(apiKeyExpires))
      ensures outcome.renewed ==> tokenCreatedAt == renewedAt && apiKeyExpires == renewedExpires
      ensures !outcome.renewed ==> tokenCreatedAt == old(tokenCreatedAt) && apiKeyExpires == old(apiKeyExpires)
    {
      var sweep := SweepPods(pods, nows);
      var renewed := false;
      if sweep.Finished? && username != "" {
        var tokenAge := tokenNow - tokenCreatedAt;
        if 2 * tokenAge > apiKeyExpires * MicrosPerSecond {
          RenewToken(renewedAt, renewedExpires);
          renewed := true;
        }
      }
      outcome := CycleOutcome(sweep, renewed);
    }
  }
}
