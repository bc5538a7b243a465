/**
 * `Config`: four optional tunables, the checks of its constructor and the field-wise
 * merge `lhs << rhs` in its four overloads.
 */
module Configs {
  import opened Wrappers

  /**
   * `retries` and `timeout` are `ssize_t` (signed); `max_response_var_binds_per_pdu` and
   * `max_async_sessions` are `size_t` (unsigned), hence `nat`.
   */
  datatype Config = Config(
    retries: Option<int>,
    timeout: Option<int>,
    maxResponseVarBindsPerPdu: Option<nat>,
    maxAsyncSessions: Option<nat>)

  datatype ConfigError =
    | RetriesNegative
    | TimeoutNegative
    | MaxResponseVarBindsNotPositive
    | MaxAsyncSessionsZero

  /**
   * What the constructor is meant to admit: no negative retries or timeout, and at least
   * one variable binding per PDU and one session when those are given.
   */
  predicate Valid(c: Config) {
    (c.retries.Some? ==> c.retries.value >= 0) &&
    (c.timeout.Some? ==> c.timeout.value >= 0) &&
    (c.maxResponseVarBindsPerPdu.Some? ==> c.maxResponseVarBindsPerPdu.value >= 1) &&
    (c.maxAsyncSessions.Some? ==> c.maxAsyncSessions.value >= 1)
  }

  /** All four tunables are present. */
  predicate Complete(c: Config) {
    c.retries.Some? && c.timeout.Some? && c.maxResponseVarBindsPerPdu.Some? && c.maxAsyncSessions.Some?
  }

  /** The configuration with nothing set. */
  function Empty(): (c: Config)
    ensures Valid(c) && c.retries.None? && c.timeout.None?
    ensures c.maxResponseVarBindsPerPdu.None? && c.maxAsyncSessions.None?
  {
    Config(None, None, None, None)
  }

  /**
   * The constructor as written: the fields are stored, then checked in order. The third
   * check compares an unsigned value with 0 and so never throws, although its message
   * asks for a value greater than 0.
   */
  function MakeConfigAsWritten(retries: Option<int>, timeout: Option<int>,
                               maxResponseVarBindsPerPdu: Option<nat>,
                               maxAsyncSessions: Option<nat>): (r: Result<Config, ConfigError>)
    ensures r.Ok? <==> (retries.Some? ==> retries.value >= 0) && (timeout.Some? ==> timeout.value >= 0)
                       && (maxAsyncSessions.Some? ==> maxAsyncSessions.value >= 1)
    ensures r.Ok? ==> r.value == Config(retries, timeout, maxResponseVarBindsPerPdu, maxAsyncSessions)
    ensures r.Err? ==> r.error != MaxResponseVarBindsNotPositive
    ensures r.Err? && r.error == RetriesNegative <==> retries.Some? && retries.value < 0
    ensures r.Err? && r.error == TimeoutNegative <==>
      !(retries.Some? && retries.value < 0) && timeout.Some? && timeout.value < 0
    ensures r.Err? && r.error == MaxAsyncSessionsZero <==>
      !(retries.Some? && retries.value < 0) && !(timeout.Some? && timeout.value < 0) && maxAsyncSessions == Some(0)
  {
    if retries.Some? && retries.value < 0 then Err(RetriesNegative)
    else if timeout.Some? && timeout.value < 0 then Err(TimeoutNegative)
    else if maxResponseVarBindsPerPdu.Some? && maxResponseVarBindsPerPdu.value < 0 then
      Err(MaxResponseVarBindsNotPositive)
    else if maxAsyncSessions.Some? && maxAsyncSessions.value < 1 then Err(MaxAsyncSessionsZero)
    else Ok(Config(retries, timeout, maxResponseVarBindsPerPdu, maxAsyncSessions))
  }

  /** As written, zero variable bindings per PDU is accepted. */
  lemma AsWrittenAdmitsZeroVarBinds()
    ensures MakeConfigAsWritten(None, None, Some(0), None) == Ok(Config(None, None, Some(0), None))
    ensures !Valid(Config(None, None, Some(0), None))
  {
  }

  /**
   * The constructor with the third check as its message states it: the fields are
   * checked in order and the first violated check names the error.
   */
  function MakeConfig(retries: Option<int>, timeout: Option<int>,
                      maxResponseVarBindsPerPdu: Option<nat>,
                      maxAsyncSessions: Option<nat>): (r: Result<Config, ConfigError>)
    ensures r.Ok? <==> Valid(Config(retries, timeout, maxResponseVarBindsPerPdu, maxAsyncSessions))
    ensures r.Ok? ==> r.value == Config(retries, timeout, maxResponseVarBindsPerPdu, maxAsyncSessions)
    ensures r.Err? && r.error == RetriesNegative <==> retries.Some? && retries.value < 0
    ensures r.Err? && r.error == TimeoutNegative <==>
      !(retries.Some? && retries.value < 0) && timeout.Some? && timeout.value < 0
    ensures r.Err? && r.error == MaxResponseVarBindsNotPositive <==>
      !(retries.Some? && retries.value < 0) && !(timeout.Some? && timeout.value < 0)
      && maxResponseVarBindsPerPdu == Some(0)
    ensures r.Err? && r.error == MaxAsyncSessionsZero <==>
      !(retries.Some? && retries.value < 0) && !(timeout.Some? && timeout.value < 0)
      && maxResponseVarBindsPerPdu != Some(0) && maxAsyncSessions == Some(0)
  {
    if retries.Some? && retries.value < 0 then Err(RetriesNegative)
    else if timeout.Some? && timeout.value < 0 then Err(TimeoutNegative)
    else if maxResponseVarBindsPerPdu.Some? && maxResponseVarBindsPerPdu.value < 1 then
      Err(MaxResponseVarBindsNotPositive)
    else if maxAsyncSessions.Some? && maxAsyncSessions.value < 1 then Err(MaxAsyncSessionsZero)
    else Ok(Config(retries, timeout, maxResponseVarBindsPerPdu, maxAsyncSessions))
  }

  /** The two constructors differ exactly on a zero variable-binding limit. */
  lemma ConstructorsAgreeOtherwise(retries: Option<int>, timeout: Option<int>,
                                   maxResponseVarBindsPerPdu: Option<nat>,
                                   maxAsyncSessions: Option<nat>)
    requires maxResponseVarBindsPerPdu != Some(0)
    ensures MakeConfig(retries, timeout, maxResponseVarBindsPerPdu, maxAsyncSessions) ==
            MakeConfigAsWritten(retries, timeout, maxResponseVarBindsPerPdu, maxAsyncSessions)
  {
  }

  /** `Option` field merge: the right value when present, else the left one. */
  function Pick<T>(lhs: Option<T>, rhs: Option<T>): Option<T> {
    if rhs.Some? then rhs else lhs
  }

  /** `Config << Config`. */
  function Merge(lhs: Config, rhs: Config): Config {
    Config(
      Pick(lhs.retries, rhs.retries),
      Pick(lhs.timeout, rhs.timeout),
      Pick(lhs.maxResponseVarBindsPerPdu, rhs.maxResponseVarBindsPerPdu),
      Pick(lhs.maxAsyncSessions, rhs.maxAsyncSessions))
  }

  /** `optional<Config> << Config`. */
  function MergeOptionalLeft(lhs: Option<Config>, rhs: Config): Config {
    if lhs.Some? then Merge(lhs.value, rhs) else rhs
  }

  /** `Config << optional<Config>`. */
  function MergeOptionalRight(lhs: Config, rhs: Option<Config>): Config {
    if rhs.Some? then Merge(lhs, rhs.value) else lhs
  }

  /** `optional<Config> << optional<Config>`. */
  function MergeOptionals(lhs: Option<Config>, rhs: Option<Config>): Option<Config> {
    if lhs.Some? then Some(MergeOptionalRight(lhs.value, rhs)) else rhs
  }

  // ---------------------------------------------------------------- merge laws

  /** Each field of the merge comes from `rhs` when present there, else from `lhs`. */
  lemma MergeTakesRightWhenPresent(lhs: Config, rhs: Config)
    ensures var m := Merge(lhs, rhs);
      && (m.retries == if rhs.retries.Some? then rhs.retries else lhs.retries)
      && (m.timeout == if rhs.timeout.Some? then rhs.timeout else lhs.timeout)
      && (m.maxResponseVarBindsPerPdu ==
          if rhs.maxResponseVarBindsPerPdu.Some? then rhs.maxResponseVarBindsPerPdu
          else lhs.maxResponseVarBindsPerPdu)
      && (m.maxAsyncSessions ==
          if rhs.maxAsyncSessions.Some? then rhs.maxAsyncSessions else lhs.maxAsyncSessions)
  {
  }

  /** The empty configuration is a unit on both sides, and every configuration is idempotent. */
  lemma MergeUnitAndIdempotent(c: Config)
    ensures Merge(Empty(), c) == c && Merge(c, Empty()) == c && Merge(c, c) == c
  {
  }

  /** The merge is associative. */
  lemma MergeAssociative(a: Config, b: Config, c: Config)
    ensures Merge(Merge(a, b), c) == Merge(a, Merge(b, c))
  {
  }

  /** Merging two valid configurations gives a valid one, so the re-check never throws. */
  lemma MergeValid(lhs: Config, rhs: Config)
    requires Valid(lhs) && Valid(rhs)
    ensures Valid(Merge(lhs, rhs))
    ensures MakeConfig(Merge(lhs, rhs).retries, Merge(lhs, rhs).timeout,
                       Merge(lhs, rhs).maxResponseVarBindsPerPdu,
                       Merge(lhs, rhs).maxAsyncSessions) == Ok(Merge(lhs, rhs))
  {
  }

  /** A complete left side stays complete, whatever the right side holds. */
  lemma MergeKeepsComplete(lhs: Config, rhs: Option<Config>)
    requires Complete(lhs)
    ensures Complete(MergeOptionalRight(lhs, rhs))
  {
  }

  /** The optional overloads: an absent side leaves the other unchanged. */
  lemma OptionalMerges(c: Config, o: Option<Config>)
    ensures MergeOptionalLeft(None, c) == c
    ensures MergeOptionalRight(c, None) == c
    ensures MergeOptionals(None, None) == None
    ensures MergeOptionals(None, o) == o
    ensures MergeOptionals(Some(c), o) == Some(MergeOptionalRight(c, o))
    ensures MergeOptionals(o, Some(c)) == Some(MergeOptionalLeft(o, c))
  {
  }
}
