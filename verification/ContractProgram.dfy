/** core_runtime/core/contract_program.py: replay of a straight-line contract program
    against sealed inputs. */
module ContractProgram {
  import opened Results
  import opened Ordering

  // ---- Values ----------------------------------------------------------------------

  datatype Scalar = Null | Bool(b: bool) | Int(i: int) | Float(r: real) | Text(s: string)

  datatype Kind = List | Set | Tuple

  /** Sets and dictionaries list their items in iteration order. */
  datatype Value =
    | Atom(scalar: Scalar)
    | Collection(kind: Kind, items: seq<Value>)
    | Dict(entries: seq<Entry>)

  datatype Entry = Entry(key: Scalar, value: Value)

  /** len(v), for the values that have one here. */
  function Size(v: Value): Option<nat> {
    match v
    case Atom(_) => None
    case Collection(_, items) => Some(|items|)
    case Dict(entries) => Some(|entries|)
  }

  /** Python compares booleans, integers and floats as numbers. */
  function Number(s: Scalar): Option<real> {
    match s
    case Bool(b) => Some(if b then 1.0 else 0.0)
    case Int(i) => Some(i as real)
    case Float(r) => Some(r)
    case _ => None
  }

  /** value == scalar */
  predicate Equals(v: Value, s: Scalar) {
    v.Atom? && (v.scalar == s || (Number(s).Some? && Number(v.scalar) == Number(s)))
  }

  // ---- Programs --------------------------------------------------------------------

  datatype Status = Passed | Blocked | InsufficientData | Rejected

  datatype StagedTransition = StagedTransition(
    transitionId: string, beforeRef: string, afterRef: string, reversibilityClass: string)

  datatype Operation = Copy | Count | Registry(registryKey: string) | UnknownOperation(name: string)

  datatype Instruction =
    | Load(key: string, output: string)
    | Assert(key: string, equals: Scalar)
    | Derive(operation: Operation, inputKeys: seq<string>, output: string)
    | Transition(transition: StagedTransition)
    | Emit(code: string, valueKey: string)
    | Halt(status: Status)

  /** The schema asks every derivation for at least one input key. */
  predicate HasInputs(program: seq<Instruction>) {
    forall i :: 0 <= i < |program| && program[i].Derive? ==> program[i].inputKeys != []
  }

  // ---- Results ---------------------------------------------------------------------

  datatype Code =
    | SealedInputMissing | AssertionFailed | DerivedInputMissing | CountRequiresCollection
    | RegistryOperationRejected | DeriveOperationUnknown | EmittedValueMissing
    | RuntimeItemLimitExceeded | EvaluationError(text: string)

  /** `instructions[index].part`, a field of the limits, or a field the evaluator names. */
  datatype Field = At(index: nat, part: string) | Limit(part: string) | Named(path: string)

  datatype Error = Error(code: Code, field: Field)

  datatype Emission = Emission(code: string, value: Value)

  datatype Execution = Execution(
    status: Status,
    executionAuthorized: bool,
    stateApplicationAuthorized: bool,
    emitted: seq<Emission>,
    staged: seq<StagedTransition>,
    errors: seq<Error>)

  /** The evaluator's report on the program. */
  datatype Evaluation = Evaluation(passed: bool, errors: seq<Error>)

  /** What a run depends on besides its program: None means the operation raised. */
  datatype World = World(
    inputs: map<string, Value>,
    registry: (string, seq<Value>) -> Option<Value>,
    maxItems: nat)

  // ---- What a program means, without a value store ---------------------------------

  function Output(instruction: Instruction): Option<string> {
    match instruction
    case Load(_, output) => Some(output)
    case Derive(_, _, output) => Some(output)
    case _ => None
  }

  function Outputs(program: seq<Instruction>): set<string> {
    set i | 0 <= i < |program| && Output(program[i]).Some? :: Output(program[i]).value
  }

  /** The value of `key` after the program: looked up backwards, from the last instruction
      with that output to the inputs it was made from. */
  function Resolve(w: World, program: seq<Instruction>, key: string): Option<Value>
    decreases |program|, 1, 0
  {
    if program == [] then None
    else
      var last, prior := program[|program| - 1], program[..|program| - 1];
      if Output(last) == Some(key) then Produce(w, prior, last) else Resolve(w, prior, key)
  }

  /** What an instruction assigns to its output, after the instructions before it. */
  function Produce(w: World, prior: seq<Instruction>, instruction: Instruction): Option<Value>
    decreases |prior| + 1, 0, 0
  {
    match instruction
    case Load(key, _) => if key in w.inputs then Some(w.inputs[key]) else None
    case Derive(operation, keys, _) =>
      (match operation
       case Copy => if keys == [] then None else Resolve(w, prior, keys[0])
       case Count =>
         if keys == [] then None else
         var source := Resolve(w, prior, keys[0]);
         if source.Some? && Size(source.value).Some? then Some(Atom(Int(Size(source.value).value))) else None
       case Registry(name) =>
         var arguments := ResolveAll(w, prior, keys);
         if arguments.Some? then w.registry(name, arguments.value) else None
       case UnknownOperation(_) => None)
    case _ => None
  }

  function ResolveAll(w: World, prior: seq<Instruction>, keys: seq<string>): Option<seq<Value>>
    decreases |prior|, 2, |keys|
  {
    if keys == [] then Some([])
    else
      var init := ResolveAll(w, prior, keys[..|keys| - 1]);
      var last := Resolve(w, prior, keys[|keys| - 1]);
      if init.Some? && last.Some? then Some(init.value + [last.value]) else None
  }

  /** Instruction i does what it asks for, given that all before it did. */
  ghost predicate Sound(w: World, program: seq<Instruction>, i: nat)
    requires i < |program|
  {
    var prior := program[..i];
    match program[i]
    case Load(key, _) => key in w.inputs
    case Assert(key, equals) => key in w.inputs && Equals(w.inputs[key], equals)
    case Derive(operation, keys, _) =>
      && (forall k :: k in keys ==> k in Outputs(prior))
      && (match operation
          case Copy => true
          case Count =>
            keys != [] ==> var source := Resolve(w, prior, keys[0]); source.Some? && Size(source.value).Some?
          case Registry(name) => Produce(w, prior, program[i]).Some?
          case UnknownOperation(_) => false)
    case Emit(_, key) => key in Outputs(prior)
    case Transition(_) => true
    case Halt(_) => true
  }

  datatype Stop = Stop(status: Status, error: Error)

  /** How a run ends when instruction i is the first that is not sound. */
  ghost function StopOf(w: World, program: seq<Instruction>, i: nat): Stop
    requires i < |program|
  {
    var prior := program[..i];
    match program[i]
    case Load(_, _) => Stop(InsufficientData, Error(SealedInputMissing, At(i, "key")))
    case Assert(key, _) =>
      if key !in w.inputs then Stop(InsufficientData, Error(SealedInputMissing, At(i, "key")))
      else Stop(Blocked, Error(AssertionFailed, At(i, "equals")))
    case Derive(operation, keys, _) =>
      if exists k :: k in keys && k !in Outputs(prior)
      then Stop(Blocked, Error(DerivedInputMissing, At(i, "input_keys")))
      else if operation.Count? then Stop(Blocked, Error(CountRequiresCollection, At(i, "input_keys")))
      else if operation.Registry? then Stop(Blocked, Error(RegistryOperationRejected, At(i, "registry_key")))
      else Stop(Blocked, Error(DeriveOperationUnknown, At(i, "operation")))
    case _ => Stop(Blocked, Error(EmittedValueMissing, At(i, "value_key")))
  }

  /** Instruction i completes: it is sound and does not fill the store beyond its limit. */
  ghost predicate Completes(w: World, program: seq<Instruction>, i: nat)
    requires i < |program|
  {
    Sound(w, program, i) && |Outputs(program[..i + 1])| <= w.maxItems
  }

  /** The first instruction from i on that does not complete, or the program's length. */
  ghost function Reach(w: World, program: seq<Instruction>, i: nat): (f: nat)
    requires i <= |program|
    ensures i <= f <= |program|
    ensures forall k :: i <= k < f ==> Completes(w, program, k)
    ensures f < |program| ==> !Completes(w, program, f)
    decreases |program| - i
  {
    if i < |program| && Completes(w, program, i) then Reach(w, program, i + 1) else i
  }

  function Emits(w: World, program: seq<Instruction>): seq<Emission> {
    if program == [] then []
    else
      var last, prior := program[|program| - 1], program[..|program| - 1];
      var value := if last.Emit? then Resolve(w, prior, last.valueKey) else None;
      Emits(w, prior) + if value.Some? then [Emission(last.code, value.value)] else []
  }

  function Transitions(program: seq<Instruction>): seq<StagedTransition> {
    if program == [] then []
    else
      var last := program[|program| - 1];
      Transitions(program[..|program| - 1]) + if last.Transition? then [last.transition] else []
  }

  /** The status of the last halt; a program that never halts has passed. */
  function Halted(program: seq<Instruction>): Status {
    if program == [] then Passed
    else
      var last := program[|program| - 1];
      if last.Halt? then last.status else Halted(program[..|program| - 1])
  }

  /** The outcome of a run, read off the program and the inputs. */
  ghost function Outcome(w: World, program: seq<Instruction>): Execution {
    var f := Reach(w, program, 0);
    if f == |program| then
      var status := Halted(program);
      Execution(status, false, false, Emits(w, program), if status.Passed? then Transitions(program) else [], [])
    else
      var stop := if Sound(w, program, f) then Stop(Blocked, Error(RuntimeItemLimitExceeded, Limit("max_items")))
                  else StopOf(w, program, f);
      Execution(stop.status, false, false, Emits(w, program[..f]), [], [stop.error])
  }

  // ---- execute_contract_program ----------------------------------------------------

  /** The value store holds exactly the resolved outputs. */
  ghost predicate Tracks(w: World, program: seq<Instruction>, values: map<string, Value>) {
    && values.Keys == Outputs(program)
    && forall k :: Resolve(w, program, k) == if k in values then Some(values[k]) else None
  }

  lemma OutputsSnoc(program: seq<Instruction>, last: Instruction)
    ensures Outputs(program + [last]) == Outputs(program) + if Output(last).Some? then {Output(last).value} else {}
  {
    var all := program + [last];
    forall k | k in Outputs(program) ensures k in Outputs(all) {
      var i :| 0 <= i < |program| && Output(program[i]) == Some(k);
      assert all[i] == program[i];
    }
    if Output(last).Some? { assert all[|program|] == last; }
    forall k | k in Outputs(all) ensures k in Outputs(program) || Output(last) == Some(k) {
      var i :| 0 <= i < |all| && Output(all[i]) == Some(k);
      if i < |program| { assert all[i] == program[i]; }
    }
  }

  lemma {:induction false} TracksSnoc(w: World, program: seq<Instruction>, values: map<string, Value>,
                                      last: Instruction)
    requires Tracks(w, program, values)
    requires Output(last).Some? ==> Produce(w, program, last).Some?
    ensures Tracks(w, program + [last],
                   if Output(last).Some? then values[Output(last).value := Produce(w, program, last).value] else values)
  {
    OutputsSnoc(program, last);
    assert (program + [last])[..|program|] == program;
  }

  function Gather(values: map<string, Value>, keys: seq<string>): (r: seq<Value>)
    requires forall k :: k in keys ==> k in values
  {
    seq(|keys|, i requires 0 <= i < |keys| => values[keys[i]])
  }

  lemma {:induction false} TracksAll(w: World, program: seq<Instruction>, values: map<string, Value>, keys: seq<string>)
    requires Tracks(w, program, values) && forall k :: k in keys ==> k in values
    ensures ResolveAll(w, program, keys) == Some(Gather(values, keys))
  {
    if keys != [] {
      var m := |keys| - 1;
      TracksAll(w, program, values, keys[..m]);
      assert keys[m] in keys;
      assert Gather(values, keys) == Gather(values, keys[..m]) + [values[keys[m]]];
    }
  }

  /** A derivation: the value for its output, or why it stops the run. */
  method RunDerive(w: World, program: seq<Instruction>, i: nat, values: map<string, Value>)
    returns (stop: Option<Stop>, value: Value)
    requires i < |program| && program[i].Derive? && program[i].inputKeys != []
    requires Tracks(w, program[..i], values)
    ensures stop.None? <==> Sound(w, program, i)
    ensures stop.Some? ==> stop.value == StopOf(w, program, i)
    ensures stop.None? ==> Produce(w, program[..i], program[i]) == Some(value)
  {
    var keys := program[i].inputKeys;
    ghost var prior := program[..i];
    value := Atom(Null);
    if exists key :: key in keys && key !in values {
      return Some(Stop(Blocked, Error(DerivedInputMissing, At(i, "input_keys")))), value;
    }
    assert keys[0] in keys;
    TracksAll(w, prior, values, keys);
    match program[i].operation {
      case Copy => return None, values[keys[0]];
      case Count =>
        var size := Size(values[keys[0]]);
        if size.None? {
          return Some(Stop(Blocked, Error(CountRequiresCollection, At(i, "input_keys")))), value;
        }
        return None, Atom(Int(size.value));
      case Registry(name) =>
        var result := w.registry(name, Gather(values, keys));
        if result.None? {
          return Some(Stop(Blocked, Error(RegistryOperationRejected, At(i, "registry_key")))), value;
        }
        return None, result.value;
      case UnknownOperation(_) =>
        return Some(Stop(Blocked, Error(DeriveOperationUnknown, At(i, "operation")))), value;
    }
  }

  /** The part of an instruction that reads the inputs and the store and writes the store. */
  method RunInstruction(w: World, program: seq<Instruction>, i: nat, values: map<string, Value>)
    returns (stop: Option<Stop>, after: map<string, Value>)
    requires i < |program| && HasInputs(program)
    requires Tracks(w, program[..i], values)
    ensures stop.None? <==> Sound(w, program, i)
    ensures stop.Some? ==> stop.value == StopOf(w, program, i)
    ensures stop.None? ==> Tracks(w, program[..i + 1], after)
    ensures Output(program[i]).None? ==> after == values
  {
    var instruction := program[i];
    assert program[..i + 1] == program[..i] + [instruction];
    stop, after := None, values;
    match instruction {
      case Load(key, output) =>
        if key !in w.inputs {
          stop := Some(Stop(InsufficientData, Error(SealedInputMissing, At(i, "key"))));
        } else {
          after := values[output := w.inputs[key]];
        }
      case Assert(key, equals) =>
        if key !in w.inputs {
          stop := Some(Stop(InsufficientData, Error(SealedInputMissing, At(i, "key"))));
        } else if !Equals(w.inputs[key], equals) {
          stop := Some(Stop(Blocked, Error(AssertionFailed, At(i, "equals"))));
        }
      case Derive(_, _, output) =>
        var value;
        stop, value := RunDerive(w, program, i, values);
        if stop.None? { after := values[output := value]; }
      case Emit(_, key) =>
        if key !in values { stop := Some(Stop(Blocked, Error(EmittedValueMissing, At(i, "value_key")))); }
      case Transition(_) =>
      case Halt(_) =>
    }
    if stop.None? { TracksSnoc(w, program[..i], values, instruction); }
  }

  /** What the loop keeps before instruction i: everything up to it completed. */
  ghost predicate Running(w: World, program: seq<Instruction>, i: nat, values: map<string, Value>, e: Execution)
    requires i <= |program|
  {
    var prior := program[..i];
    && Reach(w, program, 0) == Reach(w, program, i)
    && Tracks(w, prior, values) && |values| <= w.maxItems
    && e == Execution(Halted(prior), false, false, Emits(w, prior), Transitions(prior), [])
  }

  /** Discards the candidate transitions of a run that did not pass. */
  function Settle(e: Execution): Execution {
    if e.status.Passed? then e else e.(staged := [])
  }

  lemma FullOutcome(w: World, program: seq<Instruction>, i: nat, values: map<string, Value>, e: Execution)
    requires i < |program| && Running(w, program, i, values, e) && Sound(w, program, i)
    requires |Outputs(program[..i + 1])| > w.maxItems
    ensures Settle(e.(status := Blocked, errors := [Error(RuntimeItemLimitExceeded, Limit("max_items"))]))
            == Outcome(w, program)
    ensures Output(program[i]).Some?
  {
    assert Reach(w, program, 0) == i;
    assert program[..i + 1] == program[..i] + [program[i]];
    OutputsSnoc(program[..i], program[i]);
  }

  lemma NextRunning(w: World, program: seq<Instruction>, i: nat, values: map<string, Value>,
                    after: map<string, Value>, e: Execution, next: Execution)
    requires i < |program| && Running(w, program, i, values, e) && Completes(w, program, i)
    requires Tracks(w, program[..i + 1], after)
    requires next == Performed(w, program, i, e)
    ensures Running(w, program, i + 1, after, next)
  {
    assert program[..i + 1] == program[..i] + [program[i]];
    assert (program[..i] + [program[i]])[..i] == program[..i];
  }

  /** The effect of a sound instruction on the execution record. */
  ghost function Performed(w: World, program: seq<Instruction>, i: nat, e: Execution): Execution
    requires i < |program|
  {
    match program[i]
    case Transition(transition) => e.(staged := e.staged + [transition])
    case Emit(code, key) =>
      var value := Resolve(w, program[..i], key);
      if value.Some? then e.(emitted := e.emitted + [Emission(code, value.value)]) else e
    case Halt(s) => e.(status := s)
    case _ => e
  }

  /** execute_contract_program, given the evaluator's report.  The flags that would
      authorise an effect are never set, and the candidate transitions are all of the
      program's, in program order, or none. */
  method ExecuteContractProgram(w: World, program: seq<Instruction>, evaluation: Evaluation)
    returns (e: Execution)
    requires HasInputs(program)
    ensures evaluation.passed ==>
              && e == Outcome(w, program)
              && exists n, vals, emitting, staging :: IsRun(w, program, e, n, vals, emitting, staging)
    ensures !evaluation.passed ==> e == Execution(Rejected, false, false, [], [], evaluation.errors)
    ensures e.staged == if e.status.Passed? then Transitions(program) else []
    ensures !e.executionAuthorized && !e.stateApplicationAuthorized
  {
    e := Execution(if evaluation.passed then Passed else Rejected, false, false, [], [], []);
    if !evaluation.passed {
      e := e.(errors := evaluation.errors);
    } else {
      var values: map<string, Value> := map[];
      for i := 0 to |program|
        invariant Running(w, program, i, values, e)
      {
        var instruction := program[i];
        var stop, after := RunInstruction(w, program, i, values);
        if stop.Some? {
          e := e.(status := stop.value.status, errors := [stop.value.error]);
          break;
        }
        ghost var before := e;
        match instruction {
          case Transition(transition) => e := e.(staged := e.staged + [transition]);
          case Emit(code, key) => e := e.(emitted := e.emitted + [Emission(code, values[key])]);
          case Halt(s) => e := e.(status := s);
          case _ =>
        }
        if |after| > w.maxItems {
          FullOutcome(w, program, i, values, before);
          e := e.(status := Blocked, errors := [Error(RuntimeItemLimitExceeded, Limit("max_items"))]);
          break;
        }
        NextRunning(w, program, i, values, after, before, e);
        values := after;
      }
      assert program[..|program|] == program;
    }
    if !e.status.Passed? { e := e.(staged := []); }
    if evaluation.passed {
      ghost var n, vals, emitting, staging := OutcomeIsRun(w, program);
    }
  }

  // ---- When a run is free of errors ------------------------------------------------

  lemma OutputsGrow(program: seq<Instruction>, i: nat)
    requires i <= |program|
    ensures Outputs(program[..i]) <= Outputs(program)
    ensures |Outputs(program[..i])| <= |Outputs(program)|
  {
    forall k | k in Outputs(program[..i]) ensures k in Outputs(program) {
      var j :| 0 <= j < i && Output(program[..i][j]) == Some(k);
      assert program[..i][j] == program[j];
    }
    var a, b := Outputs(program[..i]), Outputs(program);
    assert b == a + (b - a);
  }

  /** A run has no error exactly when every instruction finds what it needs and the distinct
      outputs fit the limit: the limit is checked after each instruction, but only the total
      matters. */
  lemma ErrorFreeIff(w: World, program: seq<Instruction>)
    ensures Outcome(w, program).errors == []
            <==> (forall i :: 0 <= i < |program| ==> Sound(w, program, i)) && |Outputs(program)| <= w.maxItems
  {
    var f := Reach(w, program, 0);
    if f == |program| {
      forall k | 0 <= k < f ensures Sound(w, program, k) { assert Completes(w, program, k); }
      if f > 0 {
        assert Completes(w, program, f - 1);
        assert program[..f] == program;
      } else {
        assert Outputs(program) == {};
      }
    } else if |Outputs(program)| <= w.maxItems {
      OutputsGrow(program, f + 1);
    }
  }

  /** A run with an error has exactly one, does not pass, stages nothing, and has emitted
      precisely what the instructions before the failing one emit. */
  lemma FailingRun(w: World, program: seq<Instruction>) returns (f: nat)
    requires Outcome(w, program).errors != []
    ensures f < |program| && !Completes(w, program, f)
    ensures forall i :: 0 <= i < f ==> Completes(w, program, i)
    ensures var e := Outcome(w, program);
            && |e.errors| == 1 && !e.status.Passed? && e.staged == []
            && e.emitted == Emits(w, program[..f])
            && (e.errors[0].code.SealedInputMissing? <==> e.status.InsufficientData?)
  {
    f := Reach(w, program, 0);
  }

  /** A program passes, and hands over all its transitions, exactly when nothing goes wrong and its
      last halt says so.  A halt does not end the run: one that asks for another status is overruled
      by a later one, and what follows it must still go well. */
  lemma {:induction false} PassesIff(w: World, program: seq<Instruction>)
    ensures Outcome(w, program).status.Passed?
            <==> Halted(program).Passed?
                 && (forall i :: 0 <= i < |program| ==> Sound(w, program, i))
                 && |Outputs(program)| <= w.maxItems
  {
    ErrorFreeIff(w, program);
    if Outcome(w, program).errors != [] { var f := FailingRun(w, program); }
  }

  /** The halt that decides is the last one; without any, the status is passed. */
  lemma {:induction false} LastHaltDecides(program: seq<Instruction>)
    ensures (forall i :: 0 <= i < |program| ==> !program[i].Halt?) ==> Halted(program).Passed?
    ensures forall i :: 0 <= i < |program| && program[i].Halt? && (forall j :: i < j < |program| ==> !program[j].Halt?)
              ==> Halted(program) == program[i].status
  {
    if program != [] {
      var m := |program| - 1;
      LastHaltDecides(program[..m]);
      assert forall i :: 0 <= i < m ==> program[..m][i] == program[i];
    }
  }

  // ---- A run, instruction by instruction -------------------------------------------

  predicate Sets(instruction: Instruction, key: string) {
    (instruction.Load? && instruction.output == key) || (instruction.Derive? && instruction.output == key)
  }

  /** Of the instructions before i, d is the last that writes the key. */
  ghost predicate LastSets(program: seq<Instruction>, i: nat, key: string, d: nat) {
    d < i <= |program| && Sets(program[d], key) && forall j :: d < j < i ==> !Sets(program[j], key)
  }

  ghost predicate Unset(program: seq<Instruction>, i: nat, key: string) {
    forall j :: 0 <= j < i && j < |program| ==> !Sets(program[j], key)
  }

  /** The scalar is this number to Python. */
  predicate Counts(s: Scalar, x: real) {
    || (s == Bool(true) && x == 1.0) || (s == Bool(false) && x == 0.0)
    || (s.Int? && x == s.i as real) || (s.Float? && x == s.r)
  }

  ghost predicate PyEqual(v: Value, s: Scalar) {
    v.Atom? && (v.scalar == s || exists x :: Counts(v.scalar, x) && Counts(s, x))
  }

  /** v has n items. */
  predicate HasItems(v: Value, n: int) {
    (v.Collection? && n == |v.items|) || (v.Dict? && n == |v.entries|)
  }

  /** The value made by the last instruction before i that writes the key. */
  ghost predicate Holds(program: seq<Instruction>, vals: seq<Value>, i: nat, key: string, v: Value) {
    exists d: nat :: LastSets(program, i, key, d) && d < |vals| && v == vals[d]
  }

  ghost predicate HoldAll(program: seq<Instruction>, vals: seq<Value>, i: nat, keys: seq<string>, args: seq<Value>) {
    |args| == |keys| && forall k :: 0 <= k < |keys| ==> Holds(program, vals, i, keys[k], args[k])
  }

  /** Derivation i of v from the values of its sources. */
  ghost predicate Derives(w: World, program: seq<Instruction>, vals: seq<Value>, i: nat, operation: Operation,
                          keys: seq<string>, v: Value)
  {
    && (forall k :: k in keys ==> !Unset(program, i, k))
    && match operation
       case Copy => keys != [] && Holds(program, vals, i, keys[0], v)
       case Count =>
         keys != [] && v.Atom? && v.scalar.Int?
         && exists source :: Holds(program, vals, i, keys[0], source) && HasItems(source, v.scalar.i)
       case Registry(name) => exists args :: HoldAll(program, vals, i, keys, args) && w.registry(name, args) == Some(v)
       case UnknownOperation(_) => false
  }

  /** Instruction i works, and vals[i] is what it writes. */
  ghost predicate Works(w: World, program: seq<Instruction>, vals: seq<Value>, i: nat, v: Value)
    requires i < |program|
  {
    match program[i]
    case Load(key, _) => key in w.inputs && v == w.inputs[key]
    case Assert(key, equals) => key in w.inputs && PyEqual(w.inputs[key], equals)
    case Derive(operation, keys, _) => Derives(w, program, vals, i, operation, keys, v)
    case Emit(_, key) => !Unset(program, i, key)
    case _ => true
  }

  /** The first n instructions write more than max different keys. */
  ghost predicate Overfull(program: seq<Instruction>, n: nat, max: nat)
    requires n <= |program|
  {
    exists keys :: |keys| > max && AreSet(program, n, keys)
  }

  ghost predicate AreSet(program: seq<Instruction>, i: nat, keys: set<string>) {
    forall k :: k in keys ==> !Unset(program, i, k)
  }

  /** Instruction i does not work, for this reason. */
  ghost predicate Fails(w: World, program: seq<Instruction>, vals: seq<Value>, i: nat, stop: Stop)
    requires i < |program|
  {
    match program[i]
    case Load(key, _) => key !in w.inputs && stop == Stop(InsufficientData, Error(SealedInputMissing, At(i, "key")))
    case Assert(key, equals) =>
      if key !in w.inputs then stop == Stop(InsufficientData, Error(SealedInputMissing, At(i, "key")))
      else !PyEqual(w.inputs[key], equals) && stop == Stop(Blocked, Error(AssertionFailed, At(i, "equals")))
    case Derive(operation, keys, _) =>
      if exists k :: k in keys && Unset(program, i, k)
      then stop == Stop(Blocked, Error(DerivedInputMissing, At(i, "input_keys")))
      else
        (match operation
         case Copy => false
         case Count =>
           && keys != []
           && (exists source :: Holds(program, vals, i, keys[0], source) && source.Atom?)
           && stop == Stop(Blocked, Error(CountRequiresCollection, At(i, "input_keys")))
         case Registry(name) =>
           && (exists args :: HoldAll(program, vals, i, keys, args) && w.registry(name, args) == None)
           && stop == Stop(Blocked, Error(RegistryOperationRejected, At(i, "registry_key")))
         case UnknownOperation(_) => stop == Stop(Blocked, Error(DeriveOperationUnknown, At(i, "operation"))))
    case Emit(_, key) => Unset(program, i, key) && stop == Stop(Blocked, Error(EmittedValueMissing, At(i, "value_key")))
    case _ => false
  }

  /** The emissions are those of the emit instructions among the first n, in order. */
  ghost predicate EmittedInOrder(program: seq<Instruction>, vals: seq<Value>, n: nat, emitted: seq<Emission>,
                                 at: seq<nat>)
    requires n <= |program|
  {
    && Ascending(at) && |emitted| == |at| && (forall i: nat :: i in at <==> i < n && program[i].Emit?)
    && forall k :: 0 <= k < |at| ==> EmittedAt(program, vals, at[k], emitted[k])
  }

  ghost predicate EmittedAt(program: seq<Instruction>, vals: seq<Value>, i: nat, e: Emission) {
    && i < |program| && program[i].Emit? && e.code == program[i].code
    && Holds(program, vals, i, program[i].valueKey, e.value)
  }

  /** The transitions are those of all transition instructions, in order. */
  ghost predicate StagedInOrder(program: seq<Instruction>, staged: seq<StagedTransition>, at: seq<nat>) {
    && Ascending(at) && |staged| == |at| && (forall i: nat :: i in at <==> i < |program| && program[i].Transition?)
    && forall k :: 0 <= k < |at| ==>
         at[k] < |program| && program[at[k]].Transition? && staged[k] == program[at[k]].transition
  }

  /** The status of the last halt, or passed. */
  ghost predicate LastHalt(program: seq<Instruction>, status: Status) {
    if exists i :: 0 <= i < |program| && program[i].Halt? then
      exists i :: 0 <= i < |program| && program[i].Halt? && program[i].status == status
                  && forall j :: i < j < |program| ==> !program[j].Halt?
    else status == Passed
  }

  /** The first n instructions work, within the limit, and write vals. */
  ghost predicate Replayed(w: World, program: seq<Instruction>, n: nat, vals: seq<Value>) {
    && |vals| == n <= |program|
    && forall i :: 0 <= i < n ==> Works(w, program, vals, i, vals[i]) && !Overfull(program, i + 1, w.maxItems)
  }

  /** A run that gets through n instructions, which write vals. */
  ghost predicate IsRun(w: World, program: seq<Instruction>, e: Execution, n: nat, vals: seq<Value>, emitting: seq<nat>,
                        staging: seq<nat>)
  {
    && Replayed(w, program, n, vals)
    && EmittedInOrder(program, vals, n, e.emitted, emitting)
    && (if e.status == Passed then n == |program| && StagedInOrder(program, e.staged, staging) else e.staged == [])
    && (if n == |program| then e.errors == [] && LastHalt(program, e.status)
        else |e.errors| == 1 && StopsRun(w, program, vals, n, Stop(e.status, e.errors[0])))
    && !e.executionAuthorized && !e.stateApplicationAuthorized
  }

  ghost predicate StopsRun(w: World, program: seq<Instruction>, vals: seq<Value>, n: nat, stop: Stop)
    requires n < |program|
  {
    || Fails(w, program, vals, n, stop)
    || ((exists v :: Works(w, program, vals, n, v)) && Overfull(program, n + 1, w.maxItems)
        && stop == Stop(Blocked, Error(RuntimeItemLimitExceeded, Limit("max_items"))))
  }

  lemma UnsetIff(program: seq<Instruction>, i: nat, key: string)
    requires i <= |program|
    ensures Unset(program, i, key) <==> key !in Outputs(program[..i])
  {
    if key in Outputs(program[..i]) {
      var j :| 0 <= j < i && Output(program[..i][j]) == Some(key);
      assert Sets(program[j], key);
    }
    if !Unset(program, i, key) {
      var j :| 0 <= j < i && Sets(program[j], key);
      assert Output(program[..i][j]) == Some(key);
    }
  }

  lemma OverfullIff(program: seq<Instruction>, n: nat, max: nat)
    requires n <= |program|
    ensures Overfull(program, n, max) <==> |Outputs(program[..n])| > max
  {
    var written := Outputs(program[..n]);
    forall k: string ensures !Unset(program, n, k) <==> k in written { UnsetIff(program, n, k); }
    assert AreSet(program, n, written);
    if Overfull(program, n, max) {
      var keys :| |keys| > max && AreSet(program, n, keys);
      assert keys <= written;
      assert written == keys + (written - keys);
    }
  }

  lemma PyEqualIff(v: Value, s: Scalar)
    ensures PyEqual(v, s) <==> Equals(v, s)
  {
    if Equals(v, s) && v.scalar != s { assert Counts(v.scalar, Number(s).value) && Counts(s, Number(s).value); }
  }

  lemma {:induction false} LastSetter(program: seq<Instruction>, i: nat, key: string) returns (d: nat)
    requires i <= |program| && !Unset(program, i, key)
    ensures LastSets(program, i, key, d)
    decreases i
  {
    if Sets(program[i - 1], key) { d := i - 1; } else { d := LastSetter(program, i - 1, key); }
  }

  /** Looking a key up backwards finds its last writer. */
  lemma {:induction false} ResolveLast(w: World, program: seq<Instruction>, i: nat, key: string, d: nat)
    requires LastSets(program, i, key, d)
    ensures Resolve(w, program[..i], key) == Produce(w, program[..d], program[d])
    decreases i
  {
    var prior := program[..i];
    assert prior[i - 1] == program[i - 1] && prior[..i - 1] == program[..i - 1];
    if d < i - 1 {
      assert !Sets(program[i - 1], key);
      ResolveLast(w, program, i - 1, key, d);
    }
  }

  /** All instructions before i do what they ask for. */
  ghost predicate SoundTo(w: World, program: seq<Instruction>, i: nat) {
    i <= |program| && forall j :: 0 <= j < i ==> Sound(w, program, j)
  }

  /** What is written, after sound instructions. */
  lemma {:induction false} Resolves(w: World, program: seq<Instruction>, i: nat, key: string)
    requires HasInputs(program) && SoundTo(w, program, i) && !Unset(program, i, key)
    ensures Resolve(w, program[..i], key).Some?
    decreases i, 0
  {
    var d := LastSetter(program, i, key);
    ResolveLast(w, program, i, key, d);
    Produces(w, program, d);
  }

  lemma {:induction false} Produces(w: World, program: seq<Instruction>, d: nat)
    requires HasInputs(program) && SoundTo(w, program, d) && d < |program| && Sound(w, program, d)
    requires program[d].Load? || program[d].Derive?
    ensures Produce(w, program[..d], program[d]).Some?
    decreases d, 1
  {
    if program[d].Derive? && program[d].operation.Copy? {
      var key := program[d].inputKeys[0];
      assert key in program[d].inputKeys;
      UnsetIff(program, d, key);
      Resolves(w, program, d, key);
    }
  }

  /** What the first n instructions write. */
  ghost function Written(w: World, program: seq<Instruction>, n: nat): (vals: seq<Value>)
    requires n <= |program|
    ensures |vals| == n
    ensures forall d :: 0 <= d < n && Produce(w, program[..d], program[d]).Some? ==>
              vals[d] == Produce(w, program[..d], program[d]).value
  {
    seq(n, d requires 0 <= d < n =>
      var made := Produce(w, program[..d], program[d]); if made.Some? then made.value else Atom(Null))
  }

  lemma {:induction false} ResolveHolds(w: World, program: seq<Instruction>, n: nat, i: nat, key: string)
    requires HasInputs(program) && i <= n <= |program| && SoundTo(w, program, i)
    ensures var r := Resolve(w, program[..i], key);
            && (r.None? <==> Unset(program, i, key))
            && forall v :: r == Some(v) <==> Holds(program, Written(w, program, n), i, key, v)
  {
    var vals := Written(w, program, n);
    if Unset(program, i, key) {
      UnsetIff(program, i, key);
      ResolveUnset(w, program[..i], key);
    } else {
      var d := LastSetter(program, i, key);
      Resolves(w, program, i, key);
      ResolveLast(w, program, i, key, d);
      assert Holds(program, vals, i, key, vals[d]);
      forall e: nat | LastSets(program, i, key, e) ensures e == d {}
    }
  }

  lemma {:induction false} ResolveUnset(w: World, program: seq<Instruction>, key: string)
    requires key !in Outputs(program)
    ensures Resolve(w, program, key) == None
    decreases |program|
  {
    if program != [] {
      var prior, last := program[..|program| - 1], program[|program| - 1];
      assert program == prior + [last];
      OutputsSnoc(prior, last);
      ResolveUnset(w, prior, key);
    }
  }

  lemma {:induction false} ResolveAllHold(w: World, program: seq<Instruction>, n: nat, i: nat, keys: seq<string>)
    requires HasInputs(program) && i <= n <= |program| && SoundTo(w, program, i)
    requires forall k :: k in keys ==> !Unset(program, i, k)
    ensures var r := ResolveAll(w, program[..i], keys);
            r.Some? && HoldAll(program, Written(w, program, n), i, keys, r.value)
    decreases |keys|
  {
    if keys != [] {
      var m := |keys| - 1;
      ResolveAllHold(w, program, n, i, keys[..m]);
      assert keys[m] in keys;
      ResolveHolds(w, program, n, i, keys[m]);
      HoldNext(program, Written(w, program, n), i, keys, ResolveAll(w, program[..i], keys[..m]).value,
               Resolve(w, program[..i], keys[m]).value);
    }
  }

  lemma HoldNext(program: seq<Instruction>, vals: seq<Value>, i: nat, keys: seq<string>, args: seq<Value>, v: Value)
    requires keys != [] && HoldAll(program, vals, i, keys[..|keys| - 1], args)
    requires Holds(program, vals, i, keys[|keys| - 1], v)
    ensures HoldAll(program, vals, i, keys, args + [v])
  {
  }

  lemma {:induction false} DeriveWorks(w: World, program: seq<Instruction>, n: nat, i: nat)
    requires HasInputs(program) && i <= n <= |program| && i < |program| && SoundTo(w, program, i)
    requires program[i].Derive?
    ensures var vals, made := Written(w, program, n), Produce(w, program[..i], program[i]);
            if Sound(w, program, i) then made.Some? && Works(w, program, vals, i, made.value)
            else Fails(w, program, vals, i, StopOf(w, program, i))
  {
    var keys := program[i].inputKeys;
    var outputs := Outputs(program[..i]);
    forall k ensures k in outputs <==> !Unset(program, i, k) { UnsetIff(program, i, k); }
    if forall k :: k in keys ==> !Unset(program, i, k) {
      assert keys[0] in keys;
      ResolveHolds(w, program, n, i, keys[0]);
      ResolveAllHold(w, program, n, i, keys);
    }
  }

  /** A sound instruction works, and any other fails for the reason given. */
  lemma {:induction false} SoundWorks(w: World, program: seq<Instruction>, n: nat, i: nat)
    requires HasInputs(program) && i <= n <= |program| && i < |program| && SoundTo(w, program, i)
    ensures var vals, made := Written(w, program, n), Produce(w, program[..i], program[i]);
            if Sound(w, program, i) then
              Works(w, program, vals, i, if made.Some? then made.value else Atom(Null))
            else Fails(w, program, vals, i, StopOf(w, program, i))
  {
    match program[i] {
      case Assert(key, equals) => if key in w.inputs { PyEqualIff(w.inputs[key], equals); }
      case Derive(_, _, _) => DeriveWorks(w, program, n, i);
      case Emit(_, key) => UnsetIff(program, i, key);
      case _ =>
    }
  }

  function EmitPlaces(program: seq<Instruction>): seq<nat> {
    if program == [] then []
    else
      var m := |program| - 1;
      EmitPlaces(program[..m]) + if program[m].Emit? then [m] else []
  }

  lemma EmittedNext(program: seq<Instruction>, vals: seq<Value>, n: nat, emitted: seq<Emission>, at: seq<nat>,
                    e: Emission)
    requires n < |program| && EmittedInOrder(program, vals, n, emitted, at) && EmittedAt(program, vals, n, e)
    ensures EmittedInOrder(program, vals, n + 1, emitted + [e], at + [n])
  {
    forall i: nat ensures i in at + [n] <==> i < n + 1 && program[i].Emit? {
      assert i in at + [n] <==> i in at || i == n;
    }
    forall i, j | 0 <= i < j < |at + [n]| ensures (at + [n])[i] < (at + [n])[j] { assert at[i] in at; }
  }

  lemma EmittedSame(program: seq<Instruction>, vals: seq<Value>, n: nat, emitted: seq<Emission>, at: seq<nat>)
    requires n < |program| && EmittedInOrder(program, vals, n, emitted, at) && !program[n].Emit?
    ensures EmittedInOrder(program, vals, n + 1, emitted, at)
  {
  }

  /** What an emit instruction after sound ones emits. */
  lemma {:induction false} EmitHolds(w: World, program: seq<Instruction>, n: nat, i: nat)
    requires HasInputs(program) && i < n <= |program| && SoundTo(w, program, i + 1) && program[i].Emit?
    ensures var prior := program[..i];
            var value := Resolve(w, prior, program[i].valueKey);
            && value.Some? && EmittedAt(program, Written(w, program, n), i, Emission(program[i].code, value.value))
            && Emits(w, program[..i + 1]) == Emits(w, prior) + [Emission(program[i].code, value.value)]
            && EmitPlaces(program[..i + 1]) == EmitPlaces(prior) + [i]
  {
    var now := program[..i + 1];
    assert now[..i] == program[..i] && now[i] == program[i];
    assert Sound(w, program, i);
    UnsetIff(program, i, program[i].valueKey);
    ResolveHolds(w, program, n, i, program[i].valueKey);
  }

  lemma {:induction false} EmitsNothing(w: World, program: seq<Instruction>, i: nat)
    requires i < |program| && !program[i].Emit?
    ensures Emits(w, program[..i + 1]) == Emits(w, program[..i])
    ensures EmitPlaces(program[..i + 1]) == EmitPlaces(program[..i])
  {
    var now := program[..i + 1];
    assert now[..i] == program[..i] && now[i] == program[i];
  }

  lemma {:induction false} EmitsInOrder(w: World, program: seq<Instruction>, n: nat, i: nat)
    requires HasInputs(program) && i <= n <= |program| && SoundTo(w, program, i)
    ensures EmittedInOrder(program, Written(w, program, n), i, Emits(w, program[..i]), EmitPlaces(program[..i]))
    decreases i
  {
    if i > 0 {
      var k, vals := i - 1, Written(w, program, n);
      var emitted, at := Emits(w, program[..k]), EmitPlaces(program[..k]);
      EmitsInOrder(w, program, n, k);
      if program[k].Emit? {
        EmitHolds(w, program, n, k);
        EmittedNext(program, vals, k, emitted, at,
                    Emission(program[k].code, Resolve(w, program[..k], program[k].valueKey).value));
      } else {
        EmitsNothing(w, program, k);
        EmittedSame(program, vals, k, emitted, at);
      }
    }
  }

  function TransitionPlaces(program: seq<Instruction>): seq<nat> {
    if program == [] then []
    else
      var m := |program| - 1;
      TransitionPlaces(program[..m]) + if program[m].Transition? then [m] else []
  }

  lemma {:induction false} TransitionsInOrder(program: seq<Instruction>)
    ensures StagedInOrder(program, Transitions(program), TransitionPlaces(program))
  {
    if program != [] {
      var m := |program| - 1;
      var prior := program[..m];
      TransitionsInOrder(prior);
      var at, before := TransitionPlaces(program), TransitionPlaces(prior);
      forall i: nat ensures i in at <==> i < |program| && program[i].Transition? {
        assert i in at <==> i in before || (i == m && program[m].Transition?);
      }
      forall k | 0 <= k < |at|
        ensures at[k] < |program| && program[at[k]].Transition? && Transitions(program)[k] == program[at[k]].transition
      {
        if k < |before| { assert before[k] in before && prior[before[k]] == program[before[k]]; }
      }
    }
  }

  lemma {:induction false} HaltedIsLast(program: seq<Instruction>)
    ensures LastHalt(program, Halted(program))
  {
    LastHaltDecides(program);
    if exists i :: 0 <= i < |program| && program[i].Halt? {
      var i := LastHaltAt(program, |program|);
    }
  }

  lemma {:induction false} LastHaltAt(program: seq<Instruction>, n: nat) returns (i: nat)
    requires n <= |program| && exists i :: 0 <= i < n && program[i].Halt?
    ensures i < n && program[i].Halt? && forall j :: i < j < n ==> !program[j].Halt?
    decreases n
  {
    if program[n - 1].Halt? { i := n - 1; } else { i := LastHaltAt(program, n - 1); }
  }

  lemma {:induction false} CompletedReplay(w: World, program: seq<Instruction>, n: nat)
    requires HasInputs(program) && n <= |program| && forall i :: 0 <= i < n ==> Completes(w, program, i)
    ensures SoundTo(w, program, n) && Replayed(w, program, n, Written(w, program, n))
  {
    forall i | 0 <= i < n ensures Sound(w, program, i) { assert Completes(w, program, i); }
    var vals := Written(w, program, n);
    forall i | 0 <= i < n ensures Works(w, program, vals, i, vals[i]) && !Overfull(program, i + 1, w.maxItems) {
      assert Completes(w, program, i);
      SoundWorks(w, program, n, i);
      OverfullIff(program, i + 1, w.maxItems);
    }
  }

  lemma {:induction false} OutcomeStops(w: World, program: seq<Instruction>)
    requires HasInputs(program) && Reach(w, program, 0) < |program|
    ensures var e, n := Outcome(w, program), Reach(w, program, 0);
            |e.errors| == 1 && StopsRun(w, program, Written(w, program, n), n, Stop(e.status, e.errors[0]))
  {
    var n := Reach(w, program, 0);
    CompletedReplay(w, program, n);
    SoundWorks(w, program, n, n);
    OverfullIff(program, n + 1, w.maxItems);
  }

  /** The outcome, read off the instructions: which of them work, what each writes, emits and stages, and
      why the first that does not work stops the run. */
  lemma {:induction false} OutcomeIsRun(w: World, program: seq<Instruction>)
    returns (n: nat, vals: seq<Value>, emitting: seq<nat>, staging: seq<nat>)
    requires HasInputs(program)
    ensures IsRun(w, program, Outcome(w, program), n, vals, emitting, staging)
  {
    n := Reach(w, program, 0);
    vals, emitting, staging := Written(w, program, n), EmitPlaces(program[..n]), TransitionPlaces(program);
    CompletedReplay(w, program, n);
    EmitsInOrder(w, program, n, n);
    TransitionsInOrder(program);
    HaltedIsLast(program);
    assert program[..|program|] == program;
    if n < |program| { OutcomeStops(w, program); }
  }

  // ---- Runs depend on nothing but the inputs they name -----------------------------

  function ReadKey(instruction: Instruction): Option<string> {
    match instruction
    case Load(key, _) => Some(key)
    case Assert(key, _) => Some(key)
    case _ => None
  }

  /** Both inputs hold the same, or nothing, at every key read by the instructions before i. */
  ghost predicate Agree(a: World, b: World, program: seq<Instruction>, i: nat)
    requires i <= |program|
  {
    forall j :: 0 <= j < i && ReadKey(program[j]).Some? ==>
      var key := ReadKey(program[j]).value;
      (key in a.inputs <==> key in b.inputs) && (key in a.inputs ==> a.inputs[key] == b.inputs[key])
  }

  lemma {:induction false} ResolveAgrees(a: World, b: World, program: seq<Instruction>, key: string)
    requires a.registry == b.registry && Agree(a, b, program, |program|)
    ensures Resolve(a, program, key) == Resolve(b, program, key)
    decreases |program|, 1, 0
  {
    if program != [] {
      var m := |program| - 1;
      assert forall j :: 0 <= j < m ==> program[..m][j] == program[j];
      if Output(program[m]) == Some(key) {
        ProduceAgrees(a, b, program[..m], program[m]);
      } else {
        ResolveAgrees(a, b, program[..m], key);
      }
    }
  }

  lemma {:induction false} ProduceAgrees(a: World, b: World, prior: seq<Instruction>, last: Instruction)
    requires a.registry == b.registry && Agree(a, b, prior, |prior|)
    requires Agree(a, b, prior + [last], |prior| + 1)
    ensures Produce(a, prior, last) == Produce(b, prior, last)
    decreases |prior| + 1, 0, 0
  {
    match last {
      case Load(key, _) => assert (prior + [last])[|prior|] == last;
      case Derive(operation, keys, _) =>
        if keys != [] { ResolveAgrees(a, b, prior, keys[0]); }
        ResolveAllAgrees(a, b, prior, keys);
      case _ =>
    }
  }

  lemma {:induction false} ResolveAllAgrees(a: World, b: World, prior: seq<Instruction>, keys: seq<string>)
    requires a.registry == b.registry && Agree(a, b, prior, |prior|)
    ensures ResolveAll(a, prior, keys) == ResolveAll(b, prior, keys)
    decreases |prior|, 2, |keys|
  {
    if keys != [] {
      ResolveAllAgrees(a, b, prior, keys[..|keys| - 1]);
      ResolveAgrees(a, b, prior, keys[|keys| - 1]);
    }
  }

  lemma SoundAgrees(a: World, b: World, program: seq<Instruction>, i: nat)
    requires a.registry == b.registry && i < |program| && Agree(a, b, program, i + 1)
    ensures Sound(a, program, i) <==> Sound(b, program, i)
    ensures StopOf(a, program, i) == StopOf(b, program, i)
  {
    var prior := program[..i];
    assert forall j :: 0 <= j < i ==> prior[j] == program[j];
    assert prior + [program[i]] == program[..i + 1];
    assert forall j :: 0 <= j <= i ==> program[..i + 1][j] == program[j];
    ProduceAgrees(a, b, prior, program[i]);
    if program[i].Derive? && program[i].inputKeys != [] {
      ResolveAgrees(a, b, prior, program[i].inputKeys[0]);
    }
    if ReadKey(program[i]).Some? {
      assert ReadKey(program[i]).value in a.inputs <==> ReadKey(program[i]).value in b.inputs;
    }
  }

  lemma {:induction false} EmitsAgree(a: World, b: World, program: seq<Instruction>)
    requires a.registry == b.registry && Agree(a, b, program, |program|)
    ensures Emits(a, program) == Emits(b, program)
  {
    if program != [] {
      var m := |program| - 1;
      assert forall j :: 0 <= j < m ==> program[..m][j] == program[j];
      EmitsAgree(a, b, program[..m]);
      if program[m].Emit? { ResolveAgrees(a, b, program[..m], program[m].valueKey); }
    }
  }

  lemma {:induction false} ReachAgrees(a: World, b: World, program: seq<Instruction>, i: nat)
    requires a.registry == b.registry && a.maxItems == b.maxItems && i <= |program|
    requires var f := Reach(a, program, i); Agree(a, b, program, if f < |program| then f + 1 else f)
    ensures Reach(a, program, i) == Reach(b, program, i)
    decreases |program| - i
  {
    if i < |program| {
      SoundAgrees(a, b, program, i);
      if Completes(a, program, i) { ReachAgrees(a, b, program, i + 1); }
    }
  }

  /** Only the instructions up to the one that stops the run need to see the same inputs. */
  lemma {:induction false} OutcomeAgrees(a: World, b: World, program: seq<Instruction>)
    requires a.registry == b.registry && a.maxItems == b.maxItems
    requires var f := Reach(a, program, 0); Agree(a, b, program, if f < |program| then f + 1 else f)
    ensures Outcome(a, program) == Outcome(b, program)
  {
    var f := Reach(a, program, 0);
    ReachAgrees(a, b, program, 0);
    assert forall j :: 0 <= j < f ==> program[..f][j] == program[j];
    EmitsAgree(a, b, program[..f]);
    assert program[..|program|] == program;
    if f < |program| { SoundAgrees(a, b, program, f); }
  }

  /** Inputs that agree on the keys named by load and assert give the same run. */
  lemma InputLocality(a: World, b: World, program: seq<Instruction>)
    requires a.registry == b.registry && a.maxItems == b.maxItems
    requires Agree(a, b, program, |program|)
    ensures Outcome(a, program) == Outcome(b, program)
  {
    OutcomeAgrees(a, b, program);
  }

  /** A run that misses no input is not changed by further inputs, whether it passed or
      stopped for another reason. */
  lemma InputExtension(a: World, b: World, program: seq<Instruction>)
    requires a.registry == b.registry && a.maxItems == b.maxItems
    requires forall key :: key in a.inputs ==> key in b.inputs && b.inputs[key] == a.inputs[key]
    requires forall e :: e in Outcome(a, program).errors ==> !e.code.SealedInputMissing?
    ensures Outcome(a, program) == Outcome(b, program)
  {
    var f := Reach(a, program, 0);
    forall j | 0 <= j < |program| && j <= f && ReadKey(program[j]).Some?
      ensures ReadKey(program[j]).value in a.inputs
    {
      if j < f {
        assert Completes(a, program, j);
      } else if !Sound(a, program, f) {
        var stop := StopOf(a, program, f);
        assert stop.error in Outcome(a, program).errors;
      }
    }
    OutcomeAgrees(a, b, program);
  }
}
