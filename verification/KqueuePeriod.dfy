/** How a timer rate becomes a kevent period: the finest unit whose count does not overflow the
    integer type of the kevent data field. */
module KqueuePeriod {
  import opened Arithmetic

  const UINT_MAX: nat := 0xffff_ffff
  const NS_PER_SECOND: nat := 1_000_000_000

  /** Which NOTE_*SECONDS flags the system headers define, and its INTPTR_MAX. */
  datatype Build = Build(nsec: bool, usec: bool, msec: bool, intptrMax: nat)

  /** The unit flag of a timer event; flag value 0 (Default) counts milliseconds. */
  datatype Units = Default | Nseconds | Useconds | Mseconds

  function UnitNs(u: Units): nat {
    match u
    case Nseconds => 1
    case Useconds => 1_000
    case Mseconds | Default => 1_000_000
  }

  /** The units a build may ask for: without nanoseconds it asks for nothing but the default. */
  predicate Available(b: Build, u: Units) {
    match u
    case Nseconds => b.nsec
    case Useconds => b.nsec && b.usec
    case Mseconds => b.nsec && b.msec
    case Default => !(b.nsec && b.msec)
  }

  function Min(a: nat, b: nat): nat {
    if a <= b then a else b
  }

  /** The period is that of unit u, clamped to intptrMax; u is available; clamping happens only in
      milliseconds, and every finer available unit would have overflowed. */
  ghost predicate IsFinestFit(b: Build, periodNs: nat, period: nat, u: Units) {
    && Available(b, u)
    && period == Min(periodNs / UnitNs(u), b.intptrMax)
    && (UnitNs(u) < 1_000_000 ==> period < b.intptrMax)
    && forall f :: Available(b, f) && UnitNs(f) < UnitNs(u) ==> periodNs / UnitNs(f) >= b.intptrMax
  }

  function CoarseUnit(b: Build): Units {
    if b.nsec && b.msec then Mseconds else Default
  }

  function FinestUnit(b: Build, periodNs: nat): Units {
    if b.nsec && periodNs < b.intptrMax then Nseconds
    else if b.nsec && b.usec && periodNs / 1000 < b.intptrMax then Useconds
    else CoarseUnit(b)
  }

  function ScaledPeriod(b: Build, periodNs: nat): nat {
    Min(periodNs / UnitNs(FinestUnit(b, periodNs)), b.intptrMax)
  }

  /** kqueue_scale_period */
  method ScalePeriod(b: Build, periodNs: nat) returns (period: nat, units: Units)
    requires periodNs <= UINT_MAX
    ensures IsFinestFit(b, periodNs, period, units)
    ensures period == ScaledPeriod(b, periodNs) && units == FinestUnit(b, periodNs)
  {
    period := periodNs;
    units := Default;
    if b.nsec {
      if period < b.intptrMax {
        units := Nseconds;
      } else {
        if b.usec {
          period := period / 1000;
          if period < b.intptrMax {
            units := Useconds;
          } else {
            period := period / 1000;
            if b.msec {
              units := Mseconds;
            }
          }
        } else {
          period := period / 1_000_000;
          if b.msec {
            units := Mseconds;
          }
        }
      }
    } else {
      period := period / 1_000_000;
    }
    assert units == FinestUnit(b, periodNs);
    if period > b.intptrMax {
      period := b.intptrMax;
    }
  }

  /** The description of the finest fit leaves no choice. */
  lemma FinestFitIsUnique(b: Build, periodNs: nat, period: nat, u: Units)
    ensures IsFinestFit(b, periodNs, period, u) <==>
            period == ScaledPeriod(b, periodNs) && u == FinestUnit(b, periodNs)
  {
    if IsFinestFit(b, periodNs, period, u) {
      assert Available(b, Nseconds) ==> UnitNs(u) == 1 || periodNs / UnitNs(Nseconds) >= b.intptrMax;
      assert Available(b, Useconds) ==> UnitNs(u) <= 1000 || periodNs / UnitNs(Useconds) >= b.intptrMax;
    }
  }

  /** The period requested for a rate, in nanoseconds. */
  function PeriodNs(rate: nat): (ns: nat)
    requires 1 <= rate
    ensures ns <= NS_PER_SECOND
  {
    NS_PER_SECOND / rate
  }

  /** A scaled timer never fires later than its rate asks: `rate` periods fit in one second. */
  lemma ScaledPeriodFitsRate(b: Build, rate: nat)
    requires 1 <= rate
    ensures var ns := PeriodNs(rate);
            0 <= ScaledPeriod(b, ns) <= b.intptrMax &&
            ScaledPeriod(b, ns) * UnitNs(FinestUnit(b, ns)) * rate <= NS_PER_SECOND
  {
    var ns := PeriodNs(rate);
    var unit := UnitNs(FinestUnit(b, ns));
    var p := ScaledPeriod(b, ns);
    Division(NS_PER_SECOND, rate);
    Division(ns, unit);
    Scale(p, ns / unit, unit);
    Scale(p * unit, ns, rate);
  }

  /** A period is as long as its rate allows in its unit: one unit more, and `rate` periods would take more
      than a second; only the limit of the integer type can make it shorter. */
  predicate IsLongestPeriod(b: Build, rate: nat, period: nat, unit: nat) {
    && period * unit * rate <= 1_000_000_000
    && (period == b.intptrMax || 1_000_000_000 < (period + 1) * unit * rate)
  }

  lemma ScaledPeriodIsLongest(b: Build, rate: nat)
    requires 1 <= rate
    ensures var ns := PeriodNs(rate);
            IsLongestPeriod(b, rate, ScaledPeriod(b, ns), UnitNs(FinestUnit(b, ns)))
  {
    var ns := PeriodNs(rate);
    var unit := UnitNs(FinestUnit(b, ns));
    var p := ScaledPeriod(b, ns);
    ScaledPeriodFitsRate(b, rate);
    if p != b.intptrMax {
      Division(1_000_000_000, rate);
      Division(ns, unit);
      Scale(ns + 1, (p + 1) * unit, rate);
    }
  }

  /** Which unit is used for a rate on which build. */
  predicate IsUnitFor(b: Build, rate: nat, u: Units)
    requires 1 <= rate
  {
    var ns := 1_000_000_000 / rate;
    match u
    case Nseconds => b.nsec && ns < b.intptrMax
    case Useconds => b.nsec && b.usec && ns >= b.intptrMax && ns / 1000 < b.intptrMax
    case Mseconds => b.nsec && b.msec && ns >= b.intptrMax && (b.usec ==> ns / 1000 >= b.intptrMax)
    case Default => !b.nsec || (!b.msec && ns >= b.intptrMax && (b.usec ==> ns / 1000 >= b.intptrMax))
  }

  lemma FinestUnitFor(b: Build, rate: nat)
    requires 1 <= rate
    ensures IsUnitFor(b, rate, FinestUnit(b, PeriodNs(rate)))
    ensures forall u :: IsUnitFor(b, rate, u) ==> u == FinestUnit(b, PeriodNs(rate))
  {
  }

  /** The highest rate whose scaled period is not zero, where pointers have 32 bits or more. */
  function MaxWorkingRate(b: Build): nat {
    if b.nsec then NS_PER_SECOND else 1000
  }

  lemma ScaledPeriodIsZeroIff(b: Build, rate: nat)
    requires 1 <= rate && b.intptrMax >= 0x7fff_ffff
    ensures ScaledPeriod(b, PeriodNs(rate)) == 0 <==> rate > MaxWorkingRate(b)
  {
    QuotientAtLeast(NS_PER_SECOND, rate, 1);
    QuotientAtLeast(NS_PER_SECOND, rate, 1_000_000);
  }
}
