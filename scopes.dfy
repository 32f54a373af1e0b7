/**
 * Variable scopes and the context of src/models/context.rs. A frame maps names
 * to variables; the context keeps a chain of frames, innermost first, a flat
 * function table and the previous-answer slot. Lookup walks the chain from
 * the innermost frame outward; builtin (External) variables cannot be
 * rebound in the frame that holds them.
 */
module Scopes {
  import opened Wrappers
  import opened Ast
  import F = Functions

  /** `Variable` (src/models/variable.rs, src/context.rs). */
  datatype Variable<V> = External(value: V) | Internal(value: V)

  /** `Variable::get`: the stored value, whichever kind the variable is. */
  function Get<V>(v: Variable<V>): (r: V)
    ensures v == External(r) || v == Internal(r)
  {
    v.value
  }

  type Frame<V> = map<string, Variable<V>>

  /** A frame refuses to rebind a name it holds as External. */
  predicate Protected<V>(frame: Frame<V>, name: string) {
    name in frame && frame[name].External?
  }

  /** `VariableContext::set_variable` on one frame: None for a protected name, else the frame with name bound as Internal. */
  function Assign<V>(frame: Frame<V>, name: string, value: V): (r: Option<Frame<V>>)
    ensures r.None? <==> Protected(frame, name)
    ensures r.Some? ==> name in r.value && r.value[name] == Internal(value)
    ensures r.Some? ==> forall other :: other != name ==> (other in r.value <==> other in frame)
    ensures r.Some? ==> forall other :: other != name && other in frame ==> r.value[other] == frame[other]
  {
    if Protected(frame, name) then None else Some(frame[name := Internal(value)])
  }

  /** `VariableContext::get_variable`: the binding in the innermost frame that has the name. */
  function Lookup<V>(frames: seq<Frame<V>>, name: string): Option<Variable<V>> {
    if frames == [] then None
    else if name in frames[0] then Some(frames[0][name])
    else Lookup(frames[1..], name)
  }

  /** Lookup finds the binding of the first frame holding the name. */
  lemma {:induction false} LookupFirst<V>(frames: seq<Frame<V>>, name: string, k: nat)
    requires k < |frames| && name in frames[k]
    requires forall j :: 0 <= j < k ==> name !in frames[j]
    ensures Lookup(frames, name) == Some(frames[k][name])
  {
    if k > 0 {
      LookupFirst(frames[1..], name, k - 1);
    }
  }

  /** Lookup fails exactly when no frame holds the name. */
  lemma {:induction false} LookupAbsent<V>(frames: seq<Frame<V>>, name: string)
    ensures Lookup(frames, name).None? <==> forall k :: 0 <= k < |frames| ==> name !in frames[k]
  {
    if frames != [] {
      LookupAbsent(frames[1..], name);
      assert forall k :: 1 <= k < |frames| ==> frames[k] == frames[1..][k - 1];
    }
  }

  /** An empty innermost frame hides nothing. */
  lemma ExtendHidesNothing<V>(frames: seq<Frame<V>>, name: string)
    ensures Lookup([map[]] + frames, name) == Lookup(frames, name)
  {
    assert ([map[]] + frames)[1..] == frames;
  }

  /** After a binding in the innermost frame, the name reads back the new value, shadowing any outer binding, and every other name reads as before. */
  lemma AssignThenLookup<V>(frame: Frame<V>, rest: seq<Frame<V>>, name: string, value: V, other: string)
    requires Assign(frame, name, value).Some?
    ensures Lookup([Assign(frame, name, value).value] + rest, name) == Some(Internal(value))
    ensures other != name ==> Lookup([Assign(frame, name, value).value] + rest, other) == Lookup([frame] + rest, other)
  {
    assert ([Assign(frame, name, value).value] + rest)[1..] == rest;
    assert ([frame] + rest)[1..] == rest;
  }

  /** What evaluation reads from a context. */
  datatype Env<!V> = Env(functions: map<string, F.Function<V>>, frames: seq<Frame<V>>, previous: Option<V>)

  /** `Context` of src/models/context.rs. */
  class Context<V> {
    var previousAnswer: Option<V>
    var functions: map<string, F.Function<V>>
    /** The variable chain, innermost frame first; empty only once the outermost frame was detached. */
    var frames: seq<Frame<V>>

    /** `Context::new`: no previous answer, the given functions, one frame with the given variables. */
    constructor (functions: map<string, F.Function<V>>, variables: Frame<V>)
      ensures this.previousAnswer == None && this.functions == functions && this.frames == [variables]
    {
      this.previousAnswer := None;
      this.functions := functions;
      this.frames := [variables];
    }

    /** `extend`: push an empty frame in front of the chain. */
    method Extend()
      modifies this
      ensures frames == [map[]] + old(frames)
      ensures functions == old(functions) && previousAnswer == old(previousAnswer)
    {
      frames := [map[]] + frames;
    }

    /** `detach`: drop the innermost frame; there must be one. */
    method Detach()
      requires frames != []
      modifies this
      ensures frames == old(frames[1..])
      ensures functions == old(functions) && previousAnswer == old(previousAnswer)
    {
      frames := frames[1..];
    }

    /** `get_variable`: innermost-first lookup. */
    function GetVariable(name: string): (r: Option<Variable<V>>)
      requires frames != []
      reads this
      ensures r.Some? <==> exists k :: 0 <= k < |frames| && name in frames[k]
    {
      LookupAbsent(frames, name);
      Lookup(frames, name)
    }

    /** `set_variable`: refuse a name the innermost frame holds as External, else bind it as Internal there. */
    method SetVariable(name: string, value: V) returns (r: Option<V>)
      requires frames != []
      modifies this
      ensures Protected(old(frames[0]), name) ==> r == None && frames == old(frames)
      ensures !Protected(old(frames[0]), name) ==>
        r == Some(value) && frames == [old(frames[0])[name := Internal(value)]] + old(frames[1..])
      ensures functions == old(functions) && previousAnswer == old(previousAnswer)
    {
      match Assign(frames[0], name, value)
      case None =>
        r := None;
      case Some(frame) =>
        frames := [frame] + frames[1..];
        r := Some(value);
    }

    /** `get_function`. */
    function GetFunction(name: string): (r: Option<F.Function<V>>)
      reads this
      ensures r.Some? <==> name in functions
    {
      if name in functions then Some(functions[name]) else None
    }

    /** `set_function`: insert or replace one user definition. */
    method SetFunction(name: string, argNames: seq<string>, body: Expr)
      modifies this
      ensures functions == old(functions)[name := F.NewInternal(argNames, body)]
      ensures frames == old(frames) && previousAnswer == old(previousAnswer)
    {
      functions := functions[name := F.NewInternal(argNames, body)];
    }

    /** `get_prev_answer`. */
    function GetPrevAnswer(): (r: Option<V>)
      reads this
    {
      previousAnswer
    }

    /** `set_prev_answer`: the next `get_prev_answer` returns the value. */
    method SetPrevAnswer(value: V)
      modifies this
      ensures GetPrevAnswer() == Some(value)
      ensures functions == old(functions) && frames == old(frames)
    {
      previousAnswer := Some(value);
    }

    /** The state evaluation reads. */
    function Snapshot(): Env<V>
      reads this
    {
      Env(functions, frames, previousAnswer)
    }
  }
}
