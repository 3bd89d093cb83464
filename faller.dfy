/** The faller: three jewels moving as one piece. */
module Fallers {
  import opened Jewels

  /** The source's rotation: new jewel i is old jewel (i - 1) mod 3. */
  function Rotated(js: seq<Jewel>): (r: seq<Jewel>)
    requires |js| == FallerLength
    ensures |r| == FallerLength
    ensures forall i :: 0 <= i < FallerLength ==> r[i] == js[(i - 1) % FallerLength]
  {
    [js[2], js[0], js[1]]
  }

  /** `n` successive rotations. */
  function Rotations(js: seq<Jewel>, n: nat): (r: seq<Jewel>)
    requires |js| == FallerLength
    ensures |r| == FallerLength
  {
    if n == 0 then js else Rotated(Rotations(js, n - 1))
  }

  /** Three rotations give back the original order. */
  lemma RotateThrice(js: seq<Jewel>)
    requires |js| == FallerLength
    ensures Rotated(Rotated(Rotated(js))) == js
  {
  }

  /** One or two rotations change the order whenever the three colours differ. */
  lemma RotationChangesDistinct(js: seq<Jewel>)
    requires |js| == FallerLength
    requires js[0].color != js[1].color && js[1].color != js[2].color && js[0].color != js[2].color
    ensures Rotated(js) != js
    ensures Rotated(Rotated(js)) != js
  {
    assert Rotated(js)[0] == js[2];
    assert Rotated(Rotated(js))[0] == js[1];
  }

  /** Rotation has period three: only the number of rotations modulo 3 matters. */
  lemma {:induction false} RotationsPeriodic(js: seq<Jewel>, n: nat)
    requires |js| == FallerLength
    ensures Rotations(js, n) == Rotations(js, n % FallerLength)
    decreases n
  {
    if n >= FallerLength {
      var m: nat := n - 3;
      var base := Rotations(js, m);
      assert Rotations(js, m + 1) == Rotated(base);
      assert Rotations(js, m + 2) == Rotated(Rotated(base));
      assert Rotations(js, n) == Rotated(Rotated(Rotated(base)));
      RotateThrice(base);
      RotationsPeriodic(js, m);
      assert m % 3 == n % 3;
    }
  }

  /** The jewels with every state set to `s` and the colours kept. */
  function WithState(js: seq<Jewel>, s: JewelState): (r: seq<Jewel>)
    ensures |r| == |js|
    ensures forall i :: 0 <= i < |js| ==> r[i].color == js[i].color && r[i].state == s
  {
    seq(|js|, i requires 0 <= i < |js| => js[i].(state := s))
  }

  class Faller {
    /** Index 0 is the top jewel once the faller is on the field. */
    var jewels: seq<Jewel>

    ghost predicate Valid()
      reads this
    {
      |jewels| == FallerLength
    }

    /** A faller with the given colours, all falling. */
    constructor (colors: seq<int>)
      requires |colors| == FallerLength
      requires forall i :: 0 <= i < |colors| ==> IsJewelColor(colors[i])
      ensures Valid()
      ensures forall i :: 0 <= i < FallerLength ==> jewels[i].color == colors[i] && jewels[i].state == Falling
    {
      var js: seq<Jewel> := [];
      var t := 0;
      while t < |colors|
        invariant 0 <= t <= |colors| && |js| == t
        invariant forall i :: 0 <= i < t ==> js[i].color == colors[i] && js[i].state == Falling
      {
        js := js + [Jewel(colors[t], Falling)];
        t := t + 1;
      }
      jewels := js;
    }

    /** The state of the top jewel, which stands for the faller's state: it describes the
        whole faller exactly when the three jewels agree. */
    function State(): (s: JewelState)
      reads this
      requires Valid()
      ensures jewels == WithState(jewels, s) <==> jewels[1].state == s && jewels[2].state == s
    {
      jewels[0].state
    }

    method Rotate()
      requires Valid()
      modifies this
      ensures Valid() && jewels == Rotated(old(jewels))
    {
      var rotated: seq<Jewel> := [];
      var i := 0;
      while i < |jewels|
        invariant 0 <= i <= |jewels| && |rotated| == i
        invariant forall k :: 0 <= k < i ==> rotated[k] == jewels[(k - 1) % FallerLength]
      {
        rotated := rotated + [jewels[(i - 1) % FallerLength]];
        i := i + 1;
      }
      jewels := rotated;
    }

    /** Sets the state of every jewel, as `fall`, `land` and `freeze` do. */
    method SetStates(s: JewelState)
      requires Valid()
      modifies this
      ensures Valid() && jewels == WithState(old(jewels), s) && State() == s
    {
      var i := 0;
      while i < |jewels|
        invariant 0 <= i <= |jewels| == FallerLength
        invariant forall k :: 0 <= k < i ==> jewels[k] == old(jewels[k]).(state := s)
        invariant forall k :: i <= k < |jewels| ==> jewels[k] == old(jewels[k])
      {
        jewels := jewels[i := jewels[i].(state := s)];
        i := i + 1;
      }
    }

    method Fall()
      requires Valid()
      modifies this
      ensures Valid() && jewels == WithState(old(jewels), Falling)
    {
      SetStates(Falling);
    }

    method Land()
      requires Valid()
      modifies this
      ensures Valid() && jewels == WithState(old(jewels), Landed)
    {
      SetStates(Landed);
    }

    method Freeze()
      requires Valid()
      modifies this
      ensures Valid() && jewels == WithState(old(jewels), Frozen)
    {
      SetStates(Frozen);
    }
  }
}
