/**
 * The error-handling helpers: the exception hierarchy, the wrapper that
 * turns a critical operation into a `(sucesso, resultado, erro)` triple,
 * the required-fields check, retrying, validate-then-run, and running a
 * list of operations with rollback of the finished ones on failure.
 *
 * A call that may raise is given as its outcome (`CallResult`); a callable
 * called repeatedly is given as the outcome of each attempt.
 */
module ErrorHandler {
  import opened Wrappers
  import Text

  /** The exceptions the helpers tell apart; `Other` is any exception outside the system's hierarchy, with its `str()`. */
  datatype Raised =
    | ValidationErr(message: string)
    | DatabaseErr(message: string)
    | AuthenticationErr(message: string)
    | BusinessRuleErr(message: string)
    | ResourceErr(message: string)
    | Other(text: string)

  /** `str(e)`: a system error passes its message to `Exception`, any other exception shows its own text. */
  function ErrorText(e: Raised): string
  {
    if e.Other? then e.text else e.message
  }

  /** What a call does: return a value or raise. */
  datatype CallResult<T> = Returned(value: T) | Threw(err: Raised)

  /** The `(sucesso, resultado, erro)` triple every helper returns. */
  datatype Reply<T> = Reply(sucesso: bool, resultado: Option<T>, erro: Option<string>)

  const DatabaseMessage := "Erro interno do sistema. Tente novamente."
  const UnexpectedMessage := "Erro interno do sistema. Contate o administrador."

  // ---------------------------------------------------------------------------
  // handle_critical_operation
  // ---------------------------------------------------------------------------

  /** An exception the wrapper has no dedicated clause for. */
  predicate Unexpected(e: Raised)
  {
    !(e.ValidationErr? || e.AuthenticationErr? || e.DatabaseErr?)
  }

  /**
   * `str()` of the KeyError `logging` raises when the `extra` of a record
   * names an attribute every record already has, here "args".
   */
  const ArgsClash := "\"Attempt to overwrite 'args' in LogRecord\""

  /**
   * The wrapper of `handle_critical_operation(nome, log_errors)`: a value is
   * returned as a success; validation and authentication errors are shown
   * with their message; database errors get a fixed message, so their text
   * never reaches the caller. Any other exception gets another fixed message
   * when errors are not logged. When they are, the critical log call passes
   * "args" in `extra`, the logger refuses to overwrite the record's own
   * `args` and raises KeyError, which leaves the wrapper instead of the
   * reply.
   */
  function HandleCritical<T>(call: CallResult<T>, logErrors: bool): (r: CallResult<Reply<T>>)
    ensures r.Threw? <==> logErrors && call.Threw? && Unexpected(call.err)
    ensures r.Threw? ==> r.err == Other(ArgsClash)
    ensures r.Returned? ==> (r.value.sucesso <==> call.Returned?)
    ensures call.Returned? ==> r == Returned(Reply(true, Some(call.value), None))
    ensures r.Returned? && !r.value.sucesso ==> r.value.resultado.None? && r.value.erro.Some?
    ensures call.Threw? && (call.err.ValidationErr? || call.err.AuthenticationErr?) ==>
      r == Returned(Reply(false, None, Some(call.err.message)))
    ensures call.Threw? && call.err.DatabaseErr? ==> r == Returned(Reply(false, None, Some(DatabaseMessage)))
    ensures call.Threw? && Unexpected(call.err) && !logErrors ==>
      r == Returned(Reply(false, None, Some(UnexpectedMessage)))
  {
    match call
    case Returned(v) => Returned(Reply(true, Some(v), None))
    case Threw(e) =>
      match e
      case ValidationErr(m) => Returned(Reply(false, None, Some(m)))
      case DatabaseErr(_) => Returned(Reply(false, None, Some(DatabaseMessage)))
      case AuthenticationErr(m) => Returned(Reply(false, None, Some(m)))
      case _ => if logErrors then Threw(Other(ArgsClash)) else Returned(Reply(false, None, Some(UnexpectedMessage)))
  }

  // ---------------------------------------------------------------------------
  // validate_required_fields
  // ---------------------------------------------------------------------------

  /** A value stored under a key of the data dictionary, with Python's truth value. */
  datatype Datum = Str(s: string) | Num(n: int) | Flag(b: bool) | NoneValue | Container(size: nat) | Object

  predicate Truthy(d: Datum)
  {
    match d
    case Str(s) => s != []
    case Num(n) => n != 0
    case Flag(b) => b
    case NoneValue => false
    case Container(size) => size > 0
    case Object => true
  }

  /** `field not in data or not data[field]`. */
  predicate Absent(data: map<string, Datum>, field: string)
  {
    field !in data || !Truthy(data[field])
  }

  /** `required[j]` is absent and every field before it is present. */
  predicate FirstAbsentAt(data: map<string, Datum>, required: seq<string>, j: int)
  {
    0 <= j < |required| && Absent(data, required[j]) && forall k :: 0 <= k < j ==> !Absent(data, required[k])
  }

  /** The required fields that are absent, in the required order, repeats kept. */
  function MissingFields(data: map<string, Datum>, required: seq<string>): (r: seq<string>)
    ensures forall f :: f in r <==> f in required && Absent(data, f)
    ensures |r| <= |required|
    ensures r != [] ==> exists j :: FirstAbsentAt(data, required, j) && r[0] == required[j]
  {
    if required == [] then []
    else
      var rest := MissingFields(data, required[1..]);
      if Absent(data, required[0]) then
        [required[0]] + rest
      else
        assert forall f :: f in required <==> f == required[0] || f in required[1..];
        if rest != [] then
          FirstMissingShift(data, required, rest[0]);
          rest
        else rest
  }

  /** A first absent field of the tail is the first absent field of the whole list when the head is present. */
  lemma FirstMissingShift(data: map<string, Datum>, required: seq<string>, f: string)
    requires required != [] && !Absent(data, required[0])
    requires exists j :: FirstAbsentAt(data, required[1..], j) && f == required[1..][j]
    ensures exists j :: FirstAbsentAt(data, required, j) && f == required[j]
  {
    var j :| FirstAbsentAt(data, required[1..], j) && f == required[1..][j];
    assert f == required[j + 1] && Absent(data, required[j + 1]);
    forall k | 0 <= k < j + 1
      ensures !Absent(data, required[k])
    {
      if k > 0 {
        assert required[k] == required[1..][k - 1];
      }
    }
    assert FirstAbsentAt(data, required, j + 1);
  }

  /** The `ValidationError` the check raises: its message and its `field`. */
  datatype MissingError = MissingError(message: string, field: string)

  const MissingPrefix := "Campos obrigatórios ausentes: "

  /**
   * `validate_required_fields(data, required_fields)`: raises exactly when
   * some required field is absent or falsy; the message lists all of them
   * and `field` is the first in the required order.
   */
  function ValidateRequiredFields(data: map<string, Datum>, required: seq<string>): (r: Option<MissingError>)
    ensures r.None? <==> forall i :: 0 <= i < |required| ==> !Absent(data, required[i])
    ensures r.Some? ==> exists j :: FirstAbsentAt(data, required, j) && r.value.field == required[j]
    ensures r.Some? ==> r.value.message == MissingPrefix + Text.Join(MissingFields(data, required), ", ")
  {
    var missing := MissingFields(data, required);
    if missing == [] then
      assert forall i :: 0 <= i < |required| ==> required[i] in required;
      None
    else
      Some(MissingError(MissingPrefix + Text.Join(missing, ", "), missing[0]))
  }

  /**
   * Raised inside a critical operation, the missing-fields error reaches
   * the caller as its own message, which names the first absent field
   * right after the prefix.
   */
  lemma MissingFieldShownFirst<T>(data: map<string, Datum>, required: seq<string>, logErrors: bool)
    requires ValidateRequiredFields(data, required).Some?
    ensures var e := ValidateRequiredFields(data, required).value;
      var shown := HandleCritical<T>(Threw(ValidationErr(e.message)), logErrors);
      shown.Returned? && !shown.value.sucesso && shown.value.erro == Some(e.message)
      && |MissingPrefix + e.field| <= |e.message| && e.message[..|MissingPrefix + e.field|] == MissingPrefix + e.field
  {
    var missing := MissingFields(data, required);
    var e := ValidateRequiredFields(data, required).value;
    Text.JoinPrefix(missing, ", ");
    var joined := Text.Join(missing, ", ");
    assert e.message == MissingPrefix + joined;
    assert (MissingPrefix + joined)[..|MissingPrefix + e.field|] == MissingPrefix + joined[..|e.field|];
  }

  /** Adding a truthy value for a field never makes the check fail where it passed before. */
  lemma RequiredFieldsMonotone(data: map<string, Datum>, required: seq<string>, field: string, d: Datum)
    requires Truthy(d)
    requires ValidateRequiredFields(data, required).None?
    ensures ValidateRequiredFields(data[field := d], required).None?
  {
    forall i | 0 <= i < |required|
      ensures !Absent(data[field := d], required[i])
    {
      assert !Absent(data, required[i]);
    }
  }

  // ---------------------------------------------------------------------------
  // ErrorRecovery.retry_operation
  // ---------------------------------------------------------------------------

  const ExhaustedMessage := "Máximo de tentativas excedido"

  /**
   * `ErrorRecovery.retry_operation(func, max_attempts)`, with `attempt(i)`
   * the outcome of the `i`-th call of `func`; `calls` is how many calls
   * were made. It stops at the first success; after the last failed
   * attempt it reports that attempt's error text; with no attempt allowed
   * it reports the exhausted message without calling.
   */
  method RetryOperation<T>(attempt: nat -> CallResult<T>, maxAttempts: int) returns (r: Reply<T>, calls: nat)
    ensures maxAttempts <= 0 ==> calls == 0 && r == Reply(false, None, Some(ExhaustedMessage))
    ensures maxAttempts > 0 ==> 1 <= calls <= maxAttempts
    ensures forall i :: 0 <= i < calls - 1 ==> attempt(i).Threw?
    ensures r.sucesso <==> exists i :: 0 <= i < maxAttempts && attempt(i).Returned?
    ensures r.sucesso ==> attempt(calls - 1).Returned? && r == Reply(true, Some(attempt(calls - 1).value), None)
    ensures !r.sucesso && maxAttempts > 0 ==>
      calls == maxAttempts && r == Reply(false, None, Some(ErrorText(attempt(maxAttempts - 1).err)))
  {
    calls := 0;
    r := Reply(false, None, Some(ExhaustedMessage));
    var i := 0;
    while i < maxAttempts
      invariant 0 <= i && (maxAttempts > 0 ==> i < maxAttempts) && (maxAttempts <= 0 ==> i == 0)
      invariant calls == i
      invariant r == Reply(false, None, Some(ExhaustedMessage))
      invariant forall k :: 0 <= k < i ==> attempt(k).Threw?
    {
      calls := calls + 1;
      match attempt(i)
      case Returned(v) =>
        r := Reply(true, Some(v), None);
        return;
      case Threw(e) =>
        if i == maxAttempts - 1 {
          r := Reply(false, None, Some(ErrorText(e)));
          return;
        }
      i := i + 1;
    }
  }

  // ---------------------------------------------------------------------------
  // ErrorRecovery.validate_and_execute
  // ---------------------------------------------------------------------------

  /** The dictionary a validation returns: its "valido" and "erro" entries, `None` when the key is missing. */
  datatype ValidationAnswer = ValidationAnswer(valido: Option<Datum>, erro: Option<string>)

  const InvalidDataMessage := "Dados inválidos"
  const InternalMessage := "Erro interno"

  /**
   * `ErrorRecovery.validate_and_execute(validation_func, operation_func)`:
   * the operation runs (`ran`) only when the validation returns a truthy
   * "valido"; a refusal carries the validation's "erro" or a default;
   * validation errors from either call are shown, anything else is
   * reported as an internal error.
   */
  function ValidateAndExecute<T>(validation: CallResult<ValidationAnswer>, operation: CallResult<T>): (r: (Reply<T>, bool))
    ensures r.1 <==> validation.Returned? && validation.value.valido.Some? && Truthy(validation.value.valido.value)
    ensures r.0.sucesso <==> r.1 && operation.Returned?
    ensures r.0.sucesso ==> r.0.resultado == Some(operation.value) && r.0.erro.None?
    ensures validation.Returned? && !r.1 ==>
      r.0.erro == Some(if validation.value.erro.Some? then validation.value.erro.value else InvalidDataMessage)
    ensures !r.0.sucesso ==> r.0.resultado.None? && r.0.erro.Some?
    ensures var failed := if validation.Threw? then Some(validation.err) else if r.1 && operation.Threw? then Some(operation.err) else None;
      failed.Some? ==> r.0.erro == Some(if failed.value.ValidationErr? then failed.value.message else InternalMessage)
  {
    match validation
    case Threw(e) => (Reply(false, None, Some(if e.ValidationErr? then e.message else InternalMessage)), false)
    case Returned(answer) =>
      if answer.valido.None? || !Truthy(answer.valido.value) then
        (Reply(false, None, Some(if answer.erro.Some? then answer.erro.value else InvalidDataMessage)), false)
      else
        match operation
        case Returned(v) => (Reply(true, Some(v), None), true)
        case Threw(e) => (Reply(false, None, Some(if e.ValidationErr? then e.message else InternalMessage)), true)
  }

  // ---------------------------------------------------------------------------
  // CriticalOperationManager.execute_with_rollback
  // ---------------------------------------------------------------------------

  const CriticalFailureMessage := "Operação crítica falhou"

  /** The index of the first operation that raises, if any. */
  function FirstFailure<T>(ops: seq<CallResult<T>>): (r: Option<nat>)
    ensures r.None? <==> forall i :: 0 <= i < |ops| ==> ops[i].Returned?
    ensures r.Some? ==> r.value < |ops| && ops[r.value].Threw? && forall i :: 0 <= i < r.value ==> ops[i].Returned?
  {
    if ops == [] then None
    else if ops[0].Threw? then Some(0)
    else
      var rest := FirstFailure(ops[1..]);
      if rest.None? then
        assert forall i :: 1 <= i < |ops| ==> ops[i] == ops[1..][i - 1];
        None
      else
        assert forall i :: 1 <= i < rest.value + 1 ==> ops[i] == ops[1..][i - 1];
        Some(rest.value + 1)
  }

  /**
   * The rollbacks run after the operations `0 .. done-1` succeeded: from
   * the last finished operation back to the first, skipping an index with
   * no rollback entry or a `None` one (`present[i]` false).
   */
  function RollbackOrder(done: nat, present: seq<bool>): (r: seq<nat>)
    ensures forall i: nat :: i in r <==> i < done && i < |present| && present[i]
    ensures forall a, b :: 0 <= a < b < |r| ==> r[a] > r[b]
  {
    if done == 0 then []
    else
      var rest := RollbackOrder(done - 1, present);
      var i := done - 1;
      assert forall b :: 0 <= b < |rest| ==> rest[b] in rest;
      if i < |present| && present[i] then [i] + rest else rest
  }

  function Values<T>(ops: seq<CallResult<T>>): (r: seq<T>)
    requires forall i :: 0 <= i < |ops| ==> ops[i].Returned?
    ensures |r| == |ops| && forall i :: 0 <= i < |ops| ==> r[i] == ops[i].value
  {
    seq(|ops|, i requires 0 <= i < |ops| => ops[i].value)
  }

  /** Operation `i` and every one before it returned. */
  predicate Finished<T>(ops: seq<CallResult<T>>, i: nat)
  {
    i < |ops| && forall k :: 0 <= k <= i ==> ops[k].Returned?
  }

  /**
   * `CriticalOperationManager.execute_with_rollback(operations,
   * rollback_operations)`: the operations' results in order when none
   * raises; otherwise the failed operation is not rolled back, the
   * finished ones are, in reverse order (`rolledBack`), each attempted
   * even if an earlier rollback raised, and a fixed message is returned.
   */
  function ExecuteWithRollback<T>(ops: seq<CallResult<T>>, present: seq<bool>): (r: (Reply<seq<T>>, seq<nat>))
    ensures r.0.sucesso <==> forall i :: 0 <= i < |ops| ==> ops[i].Returned?
    ensures r.0.sucesso ==> r.1 == [] && r.0.erro.None? && r.0.resultado.Some?
    ensures r.0.sucesso ==> |r.0.resultado.value| == |ops|
    ensures r.0.sucesso ==> forall i :: 0 <= i < |ops| ==> r.0.resultado.value[i] == ops[i].value
    ensures !r.0.sucesso ==> r.0 == Reply(false, None, Some(CriticalFailureMessage))
    ensures !r.0.sucesso ==> forall i: nat :: i in r.1 <==> i < |present| && present[i] && Finished(ops, i)
    ensures forall a, b :: 0 <= a < b < |r.1| ==> r.1[a] > r.1[b]
  {
    var failure := FirstFailure(ops);
    if failure.None? then (Reply(true, Some(Values(ops)), None), [])
    else
      var f := failure.value;
      assert forall i: nat :: Finished(ops, i) ==> i < f;
      (Reply(false, None, Some(CriticalFailureMessage)), RollbackOrder(f, present))
  }

  /** The state after the first `n` operations' effects, applied in order. */
  function ApplyAll<S>(effects: seq<S -> S>, n: nat, s: S): S
    requires n <= |effects|
  {
    if n == 0 then s else effects[n - 1](ApplyAll(effects, n - 1, s))
  }

  /** The state after running the rollbacks in `order`, one after the other. */
  function Undo<S>(order: seq<nat>, undo: seq<S -> S>, s: S): S
    requires forall k :: 0 <= k < |order| ==> order[k] < |undo|
  {
    if order == [] then s else Undo(order[1..], undo, undo[order[0]](s))
  }

  /**
   * When every finished operation has a rollback that reverses its effect,
   * the reverse-order rollback of a failed run restores the state from
   * before the first operation.
   */
  lemma {:induction false} RollbackRestores<S>(effects: seq<S -> S>, undo: seq<S -> S>, present: seq<bool>, f: nat, s: S)
    requires f <= |effects| && f <= |undo| && f <= |present|
    requires forall i :: 0 <= i < f ==> present[i]
    requires forall i, x :: 0 <= i < f ==> undo[i](effects[i](x)) == x
    ensures Undo(RollbackOrder(f, present), undo, ApplyAll(effects, f, s)) == s
  {
    if f > 0 {
      var rest := RollbackOrder(f - 1, present);
      var a := ApplyAll(effects, f - 1, s);
      assert RollbackOrder(f, present) == [f - 1] + rest;
      assert ([f - 1] + rest)[1..] == rest;
      assert ApplyAll(effects, f, s) == effects[f - 1](a);
      assert undo[f - 1](effects[f - 1](a)) == a;
      assert Undo([f - 1] + rest, undo, effects[f - 1](a)) == Undo(rest, undo, a);
      RollbackRestores(effects, undo, present, f - 1, s);
    }
  }
}
