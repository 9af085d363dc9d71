// Time values: em_time_val_normalize (src/os_time_common.c) and the
// EM_TIME_VAL_* macros (include/em/types.h).  The C `long` fields are
// modelled as unbounded integers.

module TimeValues {

  /** A time or an interval, passed around by value. */
  datatype TimeVal = TimeVal(sec: int, msec: int)

  /** EM_TIME_VAL_MSEC */
  function Msec(t: TimeVal): int {
    t.sec * 1000 + t.msec
  }

  // The comparison macros compare the two fields lexicographically and never normalise.

  predicate Eq(a: TimeVal, b: TimeVal) {
    a.sec == b.sec && a.msec == b.msec
  }

  predicate Gt(a: TimeVal, b: TimeVal) {
    a.sec > b.sec || (a.sec == b.sec && a.msec > b.msec)
  }

  predicate Gte(a: TimeVal, b: TimeVal) {
    Gt(a, b) || Eq(a, b)
  }

  predicate Lt(a: TimeVal, b: TimeVal) {
    !Gte(a, b)
  }

  predicate Lte(a: TimeVal, b: TimeVal) {
    !Gt(a, b)
  }

  /** Division and remainder as C computes them: truncated towards zero. */
  function TruncDiv(x: int, y: int): int
    requires y > 0
  {
    if x >= 0 then x / y else -((-x) / y)
  }

  function TruncMod(x: int, y: int): int
    requires y > 0
  {
    if x >= 0 then x % y else -((-x) % y)
  }

  /** Both fields carry the sign of the whole value and the milliseconds stay below one second. */
  predicate Normal(t: TimeVal) {
    && -1000 < t.msec < 1000
    && (t.sec > 0 ==> t.msec >= 0)
    && (t.sec < 0 ==> t.msec <= 0)
  }

  /** The normal value with a given number of milliseconds. */
  function OfMsec(total: int): TimeVal {
    TimeVal(TruncDiv(total, 1000), TruncMod(total, 1000))
  }

  /** Every total has exactly one normal representation. */
  lemma NormalFormExistsAndIsUnique(total: int, t: TimeVal)
    ensures Normal(OfMsec(total)) && Msec(OfMsec(total)) == total
    ensures Normal(t) && Msec(t) == total ==> t == OfMsec(total)
  {
  }

  /** On normal values the lexicographic macros order by total milliseconds. */
  lemma OrderIsMsecOrder(a: TimeVal, b: TimeVal)
    requires Normal(a) && Normal(b)
    ensures Lt(a, b) <==> Msec(a) < Msec(b)
    ensures Lte(a, b) <==> Msec(a) <= Msec(b)
    ensures Gt(a, b) <==> Msec(a) > Msec(b)
    ensures Gte(a, b) <==> Msec(a) >= Msec(b)
    ensures Eq(a, b) <==> Msec(a) == Msec(b)
  {
  }

  /** Without the normal form the macros may disagree with the totals. */
  lemma OrderNeedsNormalForm()
    ensures exists a, b :: Lt(a, b) && Msec(a) > Msec(b)
  {
    var a, b := TimeVal(0, 1500), TimeVal(1, 0);
    assert Lt(a, b) && Msec(a) > Msec(b);
  }

  /** A time value that is updated in place through a pointer. */
  class TimeCell {
    var sec: int
    var msec: int

    ghost function Value(): TimeVal
      reads this
    {
      TimeVal(sec, msec)
    }

    constructor (t: TimeVal)
      ensures Value() == t
    {
      sec, msec := t.sec, t.msec;
    }

    /** em_time_val_normalize: the total is kept and becomes truncated quotient and remainder. */
    method Normalize()
      modifies this
      ensures Value() == OfMsec(old(Msec(Value())))
    {
      ghost var total := Msec(Value());
      if msec >= 1000 {
        sec := sec + msec / 1000;
        msec := msec % 1000;
      } else if msec <= -1000 {
        sec := sec - 1;
        msec := msec + 1000;
        while msec <= -1000
          invariant msec <= 0 && Msec(Value()) == total
        {
          sec := sec - 1;
          msec := msec + 1000;
        }
      }
      assert -1000 < msec < 1000 && Msec(Value()) == total;
      if sec >= 1 && msec < 0 {
        sec := sec - 1;
        msec := msec + 1000;
      } else if sec < 0 && msec > 0 {
        sec := sec + 1;
        msec := msec - 1000;
      }
      NormalFormExistsAndIsUnique(total, Value());
    }

    /** EM_TIME_VAL_ADD */
    method Add(t: TimeVal)
      modifies this
      ensures Value() == OfMsec(old(Msec(Value())) + Msec(t))
    {
      sec := sec + t.sec;
      msec := msec + t.msec;
      Normalize();
    }

    /** EM_TIME_VAL_SUB */
    method Sub(t: TimeVal)
      modifies this
      ensures Value() == OfMsec(old(Msec(Value())) - Msec(t))
    {
      sec := sec - t.sec;
      msec := msec - t.msec;
      Normalize();
    }
  }
}
