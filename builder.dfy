/** `src/builder.rs`: a builder that collects the two settings of the engine and then hands
    them over to a `SimulatedAnnealing`. */
module Builder {
  import opened Annealing

  class SimulatedAnnealingBuilder {
    var temperature: nat -> real
    var maxK: nat

    /** `SimulatedAnnealingBuilder::default()`, which `SimulatedAnnealing::builder()` returns:
        the linear schedule and a budget of 100 steps. */
    constructor Default()
      ensures temperature == LinearDecay && maxK == 100
      ensures forall k :: temperature(k) == 1.0 - 0.01 * k as real
    {
      temperature := LinearDecay;
      maxK := 100;
    }

    /** `SimulatedAnnealingBuilder::new()`: the same settings as the default builder. In the
        source `new()` delegates to `default()`; a Dafny constructor cannot call another
        constructor of its class, so the two assignments are repeated here. */
    constructor ()
      ensures temperature == LinearDecay && maxK == 100
      ensures forall k :: temperature(k) == 1.0 - 0.01 * k as real
    {
      temperature := LinearDecay;
      maxK := 100;
    }

    /** `with_temperature_and_max_iter(self, temperature, max_k)`: both settings replaced,
        and the same builder handed back. */
    method WithTemperatureAndMaxIter(t: nat -> real, m: nat) returns (self: SimulatedAnnealingBuilder)
      modifies this
      ensures self == this
      ensures temperature == t && maxK == m
    {
      temperature := t;
      maxK := m;
      self := this;
    }

    /** `build(self)`: an engine with exactly the builder's settings. */
    method Build() returns (sa: SimulatedAnnealing)
      ensures sa.temperature == temperature && sa.maxK == maxK
    {
      sa := SimulatedAnnealing(temperature, maxK);
    }
  }

  /** `SimulatedAnnealing::builder().build()`: the default builder yields the same engine as
      `SimulatedAnnealing::default()`. */
  method BuildDefault() returns (sa: SimulatedAnnealing)
    ensures sa == SimulatedAnnealing.Default()
  {
    var builder := new SimulatedAnnealingBuilder.Default();
    sa := builder.Build();
  }

  /** `SimulatedAnnealing::builder().with_temperature_and_max_iter(t, m).build()`: every
      configuration can be built, and the one built is the one asked for. */
  method BuildWith(t: nat -> real, m: nat) returns (sa: SimulatedAnnealing)
    ensures sa == SimulatedAnnealing(t, m)
  {
    var builder := new SimulatedAnnealingBuilder.Default();
    builder := builder.WithTemperatureAndMaxIter(t, m);
    sa := builder.Build();
  }
}
