/**
 The blink list of blink.S as a list of values and a screen: how one blink ticks, what the
 four list operations do, and what follows over any number of ticks.
 */
module BlinkSpec {
  import opened Bytes

  const CELLS := 80 * 25
  const U16 := 0x1_0000

  /** mp1_blink_struct without its link. The four counters are 16-bit. */
  datatype Blink = Blink(
    location: nat, onChar: byte, offChar: byte, onLength: nat, offLength: nat, countdown: nat, status: nat)

  const ZERO_BLINK := Blink(0, 0, 0, 0, 0, 0, 0)

  predicate Sized(b: Blink) {
    b.location < U16 && b.onLength < U16 && b.offLength < U16 && b.countdown < U16 && b.status < U16
  }

  predicate IsOn(b: Blink) {
    b.status % 2 == 1
  }

  /** decw, then the signed test: the countdown runs on while it is positive. */
  function Decremented(countdown: nat): nat {
    (countdown + U16 - 1) % U16
  }

  predicate Expires(b: Blink) {
    var c := Decremented(b.countdown);
    !(0 < c < U16 / 2)
  }

  function Ticked(b: Blink): Blink {
    if Expires(b) then
      b.(countdown := if IsOn(b) then b.offLength else b.onLength, status := if IsOn(b) then b.status - 1 else b.status + 1)
    else b.(countdown := Decremented(b.countdown))
  }

  function Ticks(b: Blink, t: nat): Blink {
    if t == 0 then b else Ticked(Ticks(b, t - 1))
  }

  // ---------- the closed form of a blink ----------

  /** How many ticks a phase of the given length lasts: a length that is 0 or negative as a signed word lasts one. */
  function Lasts(length: nat): (n: nat)
    ensures n > 0
  {
    if 1 <= length <= U16 / 2 then length else 1
  }

  /** A blink as add leaves it: on, with its whole on-phase before it. */
  function Started(b: Blink): Blink {
    b.(status := 1, countdown := b.onLength)
  }

  function AtPhase(b: Blink, m: nat): Blink
    requires m < Lasts(b.onLength) + Lasts(b.offLength)
  {
    if m < Lasts(b.onLength) then b.(status := 1, countdown := b.onLength - m)
    else b.(status := 0, countdown := b.offLength - (m - Lasts(b.onLength)))
  }

  lemma PhaseStep(b: Blink, m: nat)
    requires Sized(b) && m < Lasts(b.onLength) + Lasts(b.offLength)
    ensures var period := Lasts(b.onLength) + Lasts(b.offLength);
      Ticked(AtPhase(b, m)) == AtPhase(b, if m + 1 == period then 0 else m + 1)
  {
  }

  lemma {:induction false} MulGrows(p: nat, a: nat, b: nat)
    requires a < b
    ensures p * a + p <= p * b
    decreases b
  {
    assert p * b == p * (b - 1) + p;
    if a < b - 1 {
      MulGrows(p, a, b - 1);
    }
  }

  /** Quotient and remainder are unique. */
  lemma DivisionIsUnique(p: nat, q: nat, r: nat, k: nat, m: nat)
    requires p * q + r == p * k + m && r < p && m < p
    ensures r == m
  {
    if k < q {
      MulGrows(p, k, q);
    } else if q < k {
      MulGrows(p, q, k);
    }
  }

  lemma ModStep(t: nat, p: nat)
    requires 0 < p
    ensures (t + 1) % p == if t % p + 1 == p then 0 else t % p + 1
  {
    var q, r, k, m := t / p, t % p, (t + 1) / p, (t + 1) % p;
    assert t == p * q + r && t + 1 == p * k + m;
    if r + 1 == p {
      assert p * (q + 1) == p * q + p;
      DivisionIsUnique(p, q + 1, 0, k, m);
    } else {
      DivisionIsUnique(p, q, r + 1, k, m);
    }
  }

  lemma PhaseStart(b: Blink)
    ensures AtPhase(b, 0) == Started(b)
  {
  }

  /** After t ticks a blink is where t modulo its period puts it, for every pair of 16-bit lengths. */
  lemma {:induction false} TicksInClosedForm(b: Blink, t: nat)
    requires Sized(b)
    ensures Ticks(Started(b), t) == AtPhase(b, t % (Lasts(b.onLength) + Lasts(b.offLength)))
  {
    hide Ticked, AtPhase, Lasts, Sized;
    var period := Lasts(b.onLength) + Lasts(b.offLength);
    if t == 0 {
      PhaseStart(b);
      DivisionIsUnique(period, 0, 0, 0 / period, 0 % period);
    } else {
      TicksInClosedForm(b, t - 1);
      ModStep(t - 1, period);
      PhaseStep(b, (t - 1) % period);
    }
  }

  // ---------- the list and the screen ----------

  datatype Fish = Fish(list: seq<Blink>, video: bytes)

  predicate Ok(f: Fish) {
    && |f.video| == CELLS
    && forall i {:trigger f.list[i]} :: 0 <= i < |f.list| ==> Sized(f.list[i]) && f.list[i].location < CELLS
  }

  /** What a blink shows in its present phase. */
  function Shown(b: Blink): byte {
    if IsOn(b) then b.onChar else b.offChar
  }

  /** The tasklet's walk: every blink ticks, and one whose phase ends is drawn in its new phase. */
  function TickedFrom(f: Fish, k: nat): (r: Fish)
    requires Ok(f) && k <= |f.list|
    ensures Ok(r) && |r.list| == |f.list|
    decreases |f.list| - k
  {
    if k == |f.list| then f
    else
      var b := Ticked(f.list[k]);
      TickedFrom(Fish(f.list[k := b], if Expires(f.list[k]) then f.video[b.location := Shown(b)] else f.video), k + 1)
  }

  function FirstAt(list: seq<Blink>, location: nat, k: nat): (i: nat)
    requires k <= |list|
    ensures k <= i <= |list| && (i < |list| ==> list[i].location == location)
    ensures forall j :: k <= j < i ==> list[j].location != location
    decreases |list| - k
  {
    if k == |list| || list[k].location == location then k else FirstAt(list, location, k + 1)
  }

  function Removed(f: Fish, location: nat): Fish {
    var i := FirstAt(f.list, location, 0);
    if i == |f.list| then f else f.(list := f.list[..i] + f.list[i + 1..])
  }

  lemma RemovedIsOk(f: Fish, location: nat)
    requires Ok(f)
    ensures Ok(Removed(f, location))
  {
  }

  function Synced(source: Blink, target: Blink): Blink {
    target.(
      onLength := source.onLength, offLength := source.offLength, countdown := source.countdown, status := source.status)
  }

  /** The blinks of a list at one location, in order. */
  function At(list: seq<Blink>, location: nat): seq<Blink> {
    if list == [] then []
    else (if list[0].location == location then [list[0]] else []) + At(list[1..], location)
  }

  lemma {:induction false} RemovingAt(list: seq<Blink>, location: nat, x: nat, k: nat)
    requires k <= |list|
    ensures var i := FirstAt(list, location, k);
      At(if i == |list| then list[k..] else list[k..i] + list[i + 1..], x)
        == if x == location && At(list[k..], x) != [] then At(list[k..], x)[1..] else At(list[k..], x)
    ensures FirstAt(list, location, k) == |list| <==> At(list[k..], location) == []
    decreases |list| - k
  {
    var i := FirstAt(list, location, k);
    if k < |list| {
      assert list[k..][1..] == list[k + 1..];
      if i == k {
        assert list[k..i] + list[i + 1..] == list[k + 1..];
      } else {
        RemovingAt(list, location, x, k + 1);
        if i < |list| {
          var whole := list[k..i] + list[i + 1..];
          assert whole[0] == list[k] && whole[1..] == list[k + 1..i] + list[i + 1..];
        }
      }
    }
  }

  /**
   Removing takes the first of the blinks at a location and leaves every other location its blinks, and the screen
   as it is; without a blink there it does nothing.
   */
  lemma RemoveTakesTheFirst(f: Fish, location: nat, x: nat)
    ensures var g := Removed(f, location);
      && g.video == f.video && (At(f.list, location) == [] ==> g == f)
      && At(g.list, x) == if x == location && At(f.list, x) != [] then At(f.list, x)[1..] else At(f.list, x)
  {
    assert f.list[0..] == f.list;
    RemovingAt(f.list, location, x, 0);
    var i := FirstAt(f.list, location, 0);
    assert f.list[0..i] == f.list[..i];
  }

  /** Removing undoes adding, but the character stays on the screen. */
  lemma RemoveUndoesAdd(f: Fish, b: Blink)
    requires Ok(f) && b.location < CELLS
    ensures Removed(AddedTo(f, b), b.location) == Fish(f.list, f.video[b.location := b.onChar])
  {
    var list := [Started(b)] + f.list;
    assert FirstAt(list, b.location, 0) == 0 && list[..0] + list[1..] == f.list;
  }

  /** sync as it is written: after the copy it is always the off character that is drawn. */
  function SyncedAt(f: Fish, first: nat, second: nat): Fish
    requires Ok(f)
  {
    var i, j := FirstAt(f.list, first, 0), FirstAt(f.list, second, 0);
    if i == |f.list| || j == |f.list| then f
    else Fish(f.list[j := Synced(f.list[i], f.list[j])], f.video[f.list[j].location := f.list[j].offChar])
  }

  function AddedTo(f: Fish, b: Blink): Fish
    requires Ok(f) && b.location < CELLS
  {
    Fish([Started(b)] + f.list, f.video[b.location := b.onChar])
  }

  function TickedBy(f: Fish, t: nat): (r: Fish)
    requires Ok(f)
    ensures Ok(r) && |r.list| == |f.list|
  {
    if t == 0 then f else TickedFrom(TickedBy(f, t - 1), 0)
  }

  /** One walk ticks every blink exactly once. */
  lemma {:induction false} WalkTicksEach(f: Fish, k: nat, i: nat)
    requires Ok(f) && k <= |f.list| && i < |f.list|
    ensures TickedFrom(f, k).list[i] == if i < k then f.list[i] else Ticked(f.list[i])
    decreases |f.list| - k
  {
    if k < |f.list| {
      var b := Ticked(f.list[k]);
      WalkTicksEach(Fish(f.list[k := b], if Expires(f.list[k]) then f.video[b.location := Shown(b)] else f.video), k + 1, i);
    }
  }

  lemma {:induction false} WalksTickEach(f: Fish, t: nat, i: nat)
    requires Ok(f) && i < |f.list|
    ensures TickedBy(f, t).list[i] == Ticks(f.list[i], t)
  {
    if t > 0 {
      WalksTickEach(f, t - 1, i);
      WalkTicksEach(TickedBy(f, t - 1), 0, i);
    }
  }

  predicate InStep(a: Blink, b: Blink) {
    a.onLength == b.onLength && a.offLength == b.offLength && a.countdown == b.countdown && a.status == b.status
  }

  lemma {:induction false} TicksKeepStep(a: Blink, b: Blink, t: nat)
    requires InStep(a, b)
    ensures InStep(Ticks(a, t), Ticks(b, t))
  {
    if t > 0 {
      TicksKeepStep(a, b, t - 1);
    }
  }

  /** After sync the two blinks have equal status and countdown, and keep them through any number of ticks. */
  lemma SyncedStayInStep(f: Fish, first: nat, second: nat, t: nat)
    requires Ok(f)
    requires var i, j := FirstAt(f.list, first, 0), FirstAt(f.list, second, 0); i < |f.list| && j < |f.list|
    ensures Ok(SyncedAt(f, first, second))
    ensures var i, j := FirstAt(f.list, first, 0), FirstAt(f.list, second, 0);
      InStep(TickedBy(SyncedAt(f, first, second), t).list[i], TickedBy(SyncedAt(f, first, second), t).list[j])
  {
    var i, j := FirstAt(f.list, first, 0), FirstAt(f.list, second, 0);
    var g := SyncedAt(f, first, second);
    WalksTickEach(g, t, i);
    WalksTickEach(g, t, j);
    TicksKeepStep(g.list[i], g.list[j], t);
  }

  // ---------- the screen ----------

  predicate Distinct(list: seq<Blink>) {
    forall i, j :: 0 <= i < j < |list| ==> list[i].location != list[j].location
  }

  /** Every blink's cell shows its present phase. */
  predicate Drawn(f: Fish)
    requires Ok(f)
  {
    forall i {:trigger f.list[i]} :: 0 <= i < |f.list| ==> f.video[f.list[i].location] == Shown(f.list[i])
  }

  /** With no two blinks in one cell, ticking keeps the screen right. */
  lemma {:induction false} WalkKeepsDrawn(f: Fish, k: nat)
    requires Ok(f) && k <= |f.list| && Distinct(f.list) && Drawn(f)
    ensures Drawn(TickedFrom(f, k)) && Distinct(TickedFrom(f, k).list)
    decreases |f.list| - k
  {
    if k < |f.list| {
      var b := Ticked(f.list[k]);
      var g := Fish(f.list[k := b], if Expires(f.list[k]) then f.video[b.location := Shown(b)] else f.video);
      assert Drawn(g);
      WalkKeepsDrawn(g, k + 1);
    }
  }

  /** sync keeps the screen right exactly when the phase it copies is off, or both characters are the same. */
  lemma SyncKeepsDrawn(f: Fish, first: nat, second: nat)
    requires Ok(f) && Distinct(f.list) && Drawn(f)
    requires FirstAt(f.list, first, 0) < |f.list| && FirstAt(f.list, second, 0) < |f.list|
    ensures var i, j := FirstAt(f.list, first, 0), FirstAt(f.list, second, 0);
      && Ok(SyncedAt(f, first, second))
      && (Drawn(SyncedAt(f, first, second)) <==> !IsOn(f.list[i]) || f.list[j].onChar == f.list[j].offChar)
  {
    var i, j := FirstAt(f.list, first, 0), FirstAt(f.list, second, 0);
    var g := SyncedAt(f, first, second);
    assert g.list[j] == Synced(f.list[i], f.list[j]);
  }

  /** sync gives the target the source's lengths and phase, and touches nothing of any other blink or cell. */
  lemma SyncCopiesThePhase(f: Fish, first: nat, second: nat)
    requires Ok(f)
    ensures var i, j, g := FirstAt(f.list, first, 0), FirstAt(f.list, second, 0), SyncedAt(f, first, second);
      if i == |f.list| || j == |f.list| then g == f
      else
        var a, b, c := f.list[i], f.list[j], g.list[j];
        && |g.list| == |f.list| && (forall k {:trigger g.list[k]} :: 0 <= k < |f.list| && k != j ==> g.list[k] == f.list[k])
        && c == Blink(b.location, b.onChar, b.offChar, a.onLength, a.offLength, a.countdown, a.status)
        && |g.video| == |f.video| && g.video[b.location] == b.offChar
        && forall x {:trigger g.video[x]} :: 0 <= x < |f.video| && x != b.location ==> g.video[x] == f.video[x]
  {
  }

  /** Two blinks just added are both on; a sync of any two such blinks leaves the second one's cell wrong. */
  lemma SyncAfterTwoAdds(video: bytes, a: Blink, b: Blink)
    requires |video| == CELLS && Sized(a) && Sized(b) && b.onChar != b.offChar
    requires a.location < CELLS && b.location < CELLS && a.location != b.location
    ensures Ok(AddedTo(Fish([], video), a)) && Ok(AddedTo(AddedTo(Fish([], video), a), b))
    ensures var f := AddedTo(AddedTo(Fish([], video), a), b);
      Drawn(f) && Ok(SyncedAt(f, a.location, b.location)) && !Drawn(SyncedAt(f, a.location, b.location))
  {
    var f := AddedTo(AddedTo(Fish([], video), a), b);
    assert f.list == [Started(b), Started(a)];
    assert FirstAt(f.list, b.location, 0) == 0;
    assert FirstAt(f.list, a.location, 0) == 1;
    SyncKeepsDrawn(f, a.location, b.location);
  }
}
