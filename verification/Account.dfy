/** The shared resource account of an assessment run.

    Three resources are modelled exactly: the live gauge of buffered bytes, the cumulative
    counts of input and external bytes.  The per-item cap on scalar bytes is a constant.
    Every other budget (events, nodes, rule steps) and cancellation are admission questions
    whose answer the environment chooses; `Admit` stands for them. */
module Accounts {

  datatype Budget = Input | External | Buffered

  datatype Usage = Usage(input: nat, external: nat, buffered: nat) {
    function Of(kind: Budget): nat {
      match kind
      case Input => input
      case External => external
      case Buffered => buffered
    }

    function Plus(kind: Budget, amount: nat): Usage {
      match kind
      case Input => this.(input := input + amount)
      case External => this.(external := external + amount)
      case Buffered => this.(buffered := buffered + amount)
    }
  }

  class Account {
    const limits: Usage
    const maxScalar: nat
    const ample: bool      // no limit is ever reached and the run is never cancelled
    var usage: Usage

    constructor (limits: Usage, maxScalar: nat, ample: bool)
      ensures this.limits == limits && this.maxScalar == maxScalar && this.ample == ample
      ensures usage == Usage(0, 0, 0)
    {
      this.limits, this.maxScalar, this.ample := limits, maxScalar, ample;
      usage := Usage(0, 0, 0);
    }

    /** Cancellation or a cumulative work budget: the environment decides. */
    method Admit() returns (ok: bool)
      ensures ample ==> ok
    {
      ok := *;
      ok := ok || ample;
    }

    /** The per-item cap on scalar values. */
    predicate Fits(bytes: nat) {
      ample || bytes <= maxScalar
    }

    /** Unless limits are ample, no charge can push a resource over its limit; a refused charge changes nothing. */
    method Charge(kind: Budget, amount: nat) returns (ok: bool)
      modifies this
      ensures ok <==> ample || old(usage).Of(kind) + amount <= limits.Of(kind)
      ensures usage == if ok then old(usage).Plus(kind, amount) else old(usage)
    {
      ok := ample || usage.Of(kind) + amount <= limits.Of(kind);
      if ok {
        usage := usage.Plus(kind, amount);
      }
    }

    /** Only the gauge can be released, and never below zero. */
    method Release(amount: nat) returns (ok: bool)
      modifies this
      ensures ok <==> amount <= old(usage).buffered
      ensures usage == if ok then old(usage).(buffered := old(usage).buffered - amount) else old(usage)
    {
      ok := amount <= usage.buffered;
      if ok {
        usage := usage.(buffered := usage.buffered - amount);
      }
    }
  }
}
