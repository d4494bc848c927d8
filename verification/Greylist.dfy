/** The greylisting engine of src/greylist.c: one tuple record is looked up, updated and judged
    for each recipient, and the connection-local lists limit how often it is counted.
 */
module Greylist {
  import opened Common

  /** The sender tuple that keys a greylist record. */
  datatype Tuple = Tuple(origin: string, envfrom: string, envrcpt: string)

  datatype GreyRecord = GreyRecord(created: int, updated: int, expire: int, connections: int,
    deadline: int, delay: int, attempts: int, visa: int, passed: int)

  /** A parameter of a greylist action: not given, given with the value of its expression, or
      given with an expression that does not yield an integer. */
  datatype Param = Unset | Given(value: int) | Fails

  datatype Rule = Rule(deadline: Param, delay: Param, attempts: Param, visa: Param) {
    /** gl_flags == GLF_NULL */
    predicate Empty() {
      deadline.Unset? && delay.Unset? && attempts.Unset? && visa.Unset?
    }
  }

  /** cf_greylist_deadline and cf_greylist_visa */
  datatype Config = Config(deadline: int, visa: int)

  /** The two lists of recipients that a connection keeps in its mailspec. */
  datatype Counted = Counted(connection: seq<string>, passed: seq<string>)

  type Db = map<Tuple, GreyRecord>

  /** What one evaluation did. Created and Deferred stand for the C result 1, Passed and Ignored
      for 0, Failed for -1. */
  datatype Kind = Created | Deferred | Passed | Ignored | Failed {
    predicate Defers() { Created? || Deferred? }
    predicate Lets() { Passed? || Ignored? }

    /** Whether the message is let through, deferred or answered with an error. */
    function Result(): GreylistResult {
      if Failed? then GlError else if Defers() then GlDefer else GlNone
    }
  }

  /** The value of a C int that is assigned the given long. */
  function Int32(x: int): (r: int)
    ensures -0x8000_0000 <= r < 0x8000_0000
    ensures -0x8000_0000 <= x < 0x8000_0000 ==> r == x
    ensures x >= -0x8000_0000 ==> r <= x
    ensures (x - r) % 0x1_0000_0000 == 0
  {
    (x + 0x8000_0000) % 0x1_0000_0000 - 0x8000_0000
  }

  // ---------------------------------------------------------------- one evaluation, as a function

  predicate Evaluates(gl: Rule) {
    !gl.deadline.Fails? && !gl.delay.Fails? && !gl.attempts.Fails? && !gl.visa.Fails?
  }

  function Pick(p: Param, current: int): int {
    if p.Given? then p.value else current
  }

  /** greylist_properties on a record, for parameters that evaluate. */
  function Updated(gl: Rule, r: GreyRecord): GreyRecord {
    r.(deadline := Pick(gl.deadline, r.deadline), delay := Pick(gl.delay, r.delay),
       attempts := Pick(gl.attempts, r.attempts), visa := Pick(gl.visa, r.visa),
       expire := if gl.deadline.Given? then r.created + gl.deadline.value else r.expire)
  }

  /** The record that greylist_add stores; zero means the configured default. */
  function NewRecord(cfg: Config, gl: Rule, received: int): GreyRecord {
    var deadline := Pick(gl.deadline, 0);
    var visa := Pick(gl.visa, 0);
    var deadline' := if deadline == 0 then cfg.deadline else deadline;
    GreyRecord(received, received, received + deadline', 1, deadline', Pick(gl.delay, 0),
               Pick(gl.attempts, 0), if visa == 0 then cfg.visa else visa, 0)
  }

  datatype Verdict = Verdict(kind: Kind, db: Db, counted: Counted, delayed: int)

  /** The record of t, unless it is missing or has expired. */
  function Live(db: Db, t: Tuple, received: int): Option<GreyRecord> {
    if t in db && db[t].expire >= received then Some(db[t]) else None
  }

  function Add(cfg: Config, gl: Rule, db: Db, counted: Counted, t: Tuple, received: int): Verdict {
    if Evaluates(gl) then Verdict(Created, db[t := NewRecord(cfg, gl, received)], counted, 0)
    else Verdict(Failed, db, counted, 0)
  }

  function Append(list: seq<string>, s: string): seq<string> {
    if s in list then list else list + [s]
  }

  /** The record with its properties updated and the connection counted. */
  function Attempted(gl: Rule, r: GreyRecord, counted: Counted, rcpt: string): GreyRecord {
    var u := Updated(gl, r);
    if rcpt in counted.connection then u else u.(connections := u.connections + 1)
  }

  /** The test that ends greylisting: delay and attempts both exceeded. */
  predicate Qualifies(a: GreyRecord, received: int) {
    Int32(received - a.created) > a.delay && a.connections > a.attempts
  }

  function Judge(gl: Rule, db: Db, counted: Counted, t: Tuple, r: GreyRecord, received: int): Verdict {
    var a := Attempted(gl, r, counted, t.envrcpt);
    var c := counted.(connection := Append(counted.connection, t.envrcpt));
    if Qualifies(a, received) then
      var passed := if t.envrcpt in counted.passed then a.passed else a.passed + 1;
      Verdict(Passed, db[t := a.(expire := received + a.visa, passed := passed, updated := received)],
              c.(passed := Append(c.passed, t.envrcpt)),
              if passed == 1 then Int32(received - a.created) else 0)
    else
      Verdict(Deferred, db[t := a.(expire := a.created + a.deadline, passed := 0, updated := received)], c, 0)
  }

  /** greylist_recipient */
  function Recipient(cfg: Config, gl: Rule, db: Db, counted: Counted, t: Tuple, received: int): Verdict {
    if t !in db && gl.Empty() then Verdict(Ignored, db, counted, 0)
    else
      var live := Live(db, t, received);
      if live.None? then Add(cfg, gl, db, counted, t, received)
      else if !Evaluates(gl) then Verdict(Failed, db, counted, 0)
      else Judge(gl, db, counted, t, live.value, received)
  }

  // ---------------------------------------------------------------- the whole action, as a function

  datatype Decision = Decision(kind: Kind, maxDelay: int)

  /** The loop of greylist over the recipients from number n on: stop at the first that does not
      pass, remember the longest delay. */
  function Recipients(cfg: Config, gl: Rule, db: Db, counted: Counted, origin: string, envfrom: string,
                      rcpts: seq<string>, n: nat, received: int, maxDelay: int): (Decision, Db, Counted)
    requires n < |rcpts|
    decreases |rcpts| - n
  {
    var v := Recipient(cfg, gl, db, counted, Tuple(origin, envfrom, rcpts[n]), received);
    var longest := if v.delayed > maxDelay then v.delayed else maxDelay;
    if !v.kind.Lets() || n + 1 == |rcpts| then
      (Decision(v.kind, if v.kind.Lets() then longest else maxDelay), v.db, v.counted)
    else
      Recipients(cfg, gl, v.db, v.counted, origin, envfrom, rcpts, n + 1, received, longest)
  }

  /** greylist: in the envrcpt stage only the current recipient is judged. */
  function ActionOf(cfg: Config, envrcptStage: bool, gl: Rule, db: Db, counted: Counted, origin: string,
                    envfrom: string, envrcpt: string, recipients: seq<string>, received: int): (Decision, Db, Counted)
    requires envrcptStage || recipients != []
  {
    if envrcptStage then
      var v := Recipient(cfg, gl, db, counted, Tuple(origin, envfrom, envrcpt), received);
      (Decision(v.kind, v.delayed), v.db, v.counted)
    else
      Recipients(cfg, gl, db, counted, origin, envfrom, recipients, 0, received, 0)
  }

  // ---------------------------------------------------------------- the code

  /** The connection's mailspec table, as far as greylisting uses it. */
  class Mailspec {
    var counted: Counted
    var greylistDelayed: Option<int>
  }

  /** The symbols that the action dereferences; None for one that is not set. */
  datatype Symbols = Symbols(origin: Option<string>, envfrom: Option<string>, envrcpt: Option<string>,
    recipients: Option<seq<string>>, received: Option<int>)
  {
    function Count(): nat {
      (if origin.Some? then 1 else 0) + (if envfrom.Some? then 1 else 0) + (if envrcpt.Some? then 1 else 0)
      + (if recipients.Some? then 1 else 0) + (if received.Some? then 1 else 0)
    }

    /** All parts of the keys to look up; the database drivers refuse null keys. */
    predicate KeyKnown(envrcptStage: bool) {
      origin.Some? && envfrom.Some? && (envrcptStage ==> envrcpt.Some?)
    }

    predicate AnyRecipient(envrcptStage: bool) {
      envrcptStage || (recipients.Some? && recipients.value != [])
    }

    /** Some recipient is judged. */
    predicate Judges(envrcptStage: bool) {
      Count() >= 4 && received.Some? && KeyKnown(envrcptStage) && AnyRecipient(envrcptStage)
    }
  }

  class Engine {
    const cfg: Config
    var db: Db

    /** greylist_properties: the four parameters in turn; a failure stops the loop. */
    method Properties(gl: Rule, r: GreyRecord) returns (ok: bool, u: GreyRecord)
      ensures ok <==> Evaluates(gl)
      ensures ok ==> u == Updated(gl, r)
    {
      var params := [gl.deadline, gl.delay, gl.attempts, gl.visa];
      var current := [r.deadline, r.delay, r.attempts, r.visa];
      var result := current;
      u := r;
      for i := 0 to |params|
        invariant |result| == 4
        invariant forall j :: 0 <= j < i ==> !params[j].Fails? && result[j] == Pick(params[j], current[j])
        invariant forall j :: i <= j < 4 ==> result[j] == current[j]
      {
        if params[i].Unset? {
          continue;
        }
        if params[i].Fails? {
          return false, u;
        }
        result := result[i := params[i].value];
      }
      u := u.(deadline := result[0], delay := result[1], attempts := result[2], visa := result[3]);
      if !gl.deadline.Unset? {
        u := u.(expire := u.created + u.deadline);
      }
      return true, u;
    }

    /** greylist_tuple_counted: look for the needle and append it when it is new. */
    method TupleCounted(haystack: seq<string>, needle: string) returns (found: bool, haystack': seq<string>)
      ensures found <==> needle in haystack
      ensures haystack' == Append(haystack, needle)
    {
      for i := 0 to |haystack|
        invariant needle !in haystack[..i]
      {
        if haystack[i] == needle {
          return true, haystack;
        }
      }
      return false, haystack + [needle];
    }

    /** greylist_add */
    method AddRecord(gl: Rule, t: Tuple, received: int) returns (kind: Kind)
      modifies this`db
      ensures kind == if Evaluates(gl) then Created else Failed
      ensures db == if Evaluates(gl) then old(db)[t := NewRecord(cfg, gl, received)] else old(db)
    {
      var r := GreyRecord(received, received, 0, 1, 0, 0, 0, 0, 0);
      var ok, u := Properties(gl, r);
      if !ok {
        return Failed;
      }
      if u.deadline == 0 {
        u := u.(deadline := cfg.deadline);
      }
      if u.visa == 0 {
        u := u.(visa := cfg.visa);
      }
      u := u.(expire := received + u.deadline);
      db := db[t := u];
      return Created;
    }

    /** greylist_recipient: the record's fields are changed one after the other and stored. */
    method EvaluateRecipient(gl: Rule, ms: Mailspec, t: Tuple, received: int) returns (kind: Kind, delayed: int)
      modifies this`db, ms`counted
      ensures Verdict(kind, db, ms.counted, delayed) == Recipient(cfg, gl, old(db), old(ms.counted), t, received)
    {
      delayed := 0;
      if t !in db && gl.Empty() {
        return Ignored, 0;
      }
      if t !in db || db[t].expire < received {
        kind := AddRecord(gl, t, received);
        return kind, 0;
      }
      var ok, record := Properties(gl, db[t]);
      if !ok {
        return Failed, 0;
      }
      var found, list := TupleCounted(ms.counted.connection, t.envrcpt);
      ms.counted := ms.counted.(connection := list);
      if !found {
        record := record.(connections := record.connections + 1);
      }
      var passedDelay := Int32(received - record.created);
      if passedDelay > record.delay && record.connections > record.attempts {
        record := record.(expire := received + record.visa);
        kind := Passed;
        found, list := TupleCounted(ms.counted.passed, t.envrcpt);
        ms.counted := ms.counted.(passed := list);
        if !found {
          record := record.(passed := record.passed + 1);
        }
        if record.passed == 1 {
          delayed := passedDelay;
        }
      } else {
        kind := Deferred;
        record := record.(expire := record.created + record.deadline, passed := 0);
      }
      record := record.(updated := received);
      db := db[t := record];
    }

    /** greylist: an error with fewer than four of the five symbols; with four of them, one that belongs
        to the key may be missing, and then no record can be looked up. Pointers that are followed
        without a check must be there. */
    method Action(envrcptStage: bool, gl: Rule, ms: Mailspec, symbols: Symbols) returns (result: GreylistResult)
      requires symbols.Count() >= 4 ==> symbols.received.Some? && (envrcptStage || symbols.recipients.Some?)
      modifies this`db, ms`counted, ms`greylistDelayed
      ensures symbols.Count() < 4 ==> result == GlError
      ensures symbols.Count() >= 4 && !symbols.KeyKnown(envrcptStage) && symbols.AnyRecipient(envrcptStage) ==>
        result == GlError
      ensures !symbols.Judges(envrcptStage) ==>
        db == old(db) && ms.counted == old(ms.counted) && ms.greylistDelayed == old(ms.greylistDelayed)
      ensures symbols.Judges(envrcptStage) ==>
        var envrcpt := if symbols.envrcpt.Some? then symbols.envrcpt.value else "";
        var recipients := if symbols.recipients.Some? then symbols.recipients.value else [];
        var (d, db', counted') := ActionOf(cfg, envrcptStage, gl, old(db), old(ms.counted), symbols.origin.value,
          symbols.envfrom.value, envrcpt, recipients, symbols.received.value);
        && db == db' && ms.counted == counted' && result == d.kind.Result()
        && ms.greylistDelayed
          == (if d.kind.Lets() && d.maxDelay != 0 then Some(d.maxDelay) else old(ms.greylistDelayed))
    {
      if symbols.Count() < 4 {
        return GlError;
      }
      var recipients := if symbols.recipients.Some? then symbols.recipients.value else [];
      if !symbols.KeyKnown(envrcptStage) {
        if envrcptStage || recipients != [] {
          return GlError;
        }
        result := *;
        return;
      }
      var envrcpt := if symbols.envrcpt.Some? then symbols.envrcpt.value else "";
      result := Decide(envrcptStage, gl, ms, symbols.origin.value, symbols.envfrom.value, envrcpt, recipients,
        symbols.received.value);
    }

    /** In the envrcpt stage the current recipient, otherwise all of them until one is deferred. Without
        recipients the result is read from an uninitialised variable. */
    method Decide(envrcptStage: bool, gl: Rule, ms: Mailspec, origin: string, envfrom: string, envrcpt: string,
                  recipients: seq<string>, received: int) returns (result: GreylistResult)
      modifies this`db, ms`counted, ms`greylistDelayed
      ensures envrcptStage || recipients != [] ==>
        var (d, db', counted') :=
          ActionOf(cfg, envrcptStage, gl, old(db), old(ms.counted), origin, envfrom, envrcpt, recipients, received);
        && db == db' && ms.counted == counted' && result == d.kind.Result()
        && ms.greylistDelayed
          == (if d.kind.Lets() && d.maxDelay != 0 then Some(d.maxDelay) else old(ms.greylistDelayed))
      ensures !envrcptStage && recipients == [] ==>
        db == old(db) && ms.counted == old(ms.counted) && ms.greylistDelayed == old(ms.greylistDelayed)
    {
      var kind, maxDelay;
      if envrcptStage {
        kind, maxDelay := EvaluateRecipient(gl, ms, Tuple(origin, envfrom, envrcpt), received);
      } else {
        kind, maxDelay := AllRecipients(gl, ms, origin, envfrom, recipients, received);
      }
      if kind.Failed? {
        return GlError;
      }
      if kind.Defers() {
        return GlDefer;
      }
      if maxDelay == 0 {
        return GlNone;
      }
      ms.greylistDelayed := Some(maxDelay);
      return GlNone;
    }

    /** The loop of greylist over the recipient list. */
    method AllRecipients(gl: Rule, ms: Mailspec, origin: string, envfrom: string, recipients: seq<string>,
                         received: int)
      returns (kind: Kind, maxDelay: int)
      modifies this`db, ms`counted
      ensures recipients != [] ==>
        Recipients(cfg, gl, old(db), old(ms.counted), origin, envfrom, recipients, 0, received, 0)
        == (Decision(kind, maxDelay), db, ms.counted)
      ensures recipients == [] ==> db == old(db) && ms.counted == old(ms.counted) && maxDelay == 0
    {
      kind, maxDelay := *, 0;
      var n := 0;
      while n < |recipients|
        invariant 0 <= n <= |recipients| && (n > 0 ==> kind.Lets())
        invariant n == 0 ==> db == old(db) && ms.counted == old(ms.counted) && maxDelay == 0
        invariant recipients != [] ==>
          Recipients(cfg, gl, old(db), old(ms.counted), origin, envfrom, recipients, 0, received, 0)
          == if n < |recipients|
             then Recipients(cfg, gl, db, ms.counted, origin, envfrom, recipients, n, received, maxDelay)
             else (Decision(kind, maxDelay), db, ms.counted)
      {
        var delay;
        kind, delay := EvaluateRecipient(gl, ms, Tuple(origin, envfrom, recipients[n]), received);
        if !kind.Lets() {
          return;
        }
        if delay > maxDelay {
          maxDelay := delay;
        }
        n := n + 1;
      }
    }
  }
}
