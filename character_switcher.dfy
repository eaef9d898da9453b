/**
 * The character switcher (Managers/CharacterSwitcher.cs): a list of
 * characters of which exactly one is active and followed by the camera; the
 * switch button moves to the next character, wrapping around.
 */
module Switcher {
  import opened Arith

  /** The index that follows i in a cycle of n characters. */
  function Next(i: nat, n: nat): (r: nat)
    requires n > 0
  {
    (i + 1) % n
  }

  /** The index reached from i after k switches among n characters. */
  function Advance(i: nat, n: nat, k: nat): (r: nat)
    requires n > 0
  {
    if k == 0 then i else Next(Advance(i, n, k - 1), n)
  }

  /** k switches move the index k places forward, modulo n. */
  lemma {:induction false} AdvanceAdds(i: nat, n: nat, k: nat)
    requires 0 < n && i < n
    ensures Advance(i, n, k) == (i + k) % n
  {
    if k > 0 {
      var x := i + k - 1;
      var p := Advance(i, n, k - 1);
      AdvanceAdds(i, n, k - 1);
      assert p == x % n;
      ModSucc(x, n);
      assert Advance(i, n, k) == Next(p, n);
    }
  }

  /** Taking the successor commutes with reduction modulo n. */
  lemma ModSucc(x: nat, n: nat)
    requires n > 0
    ensures (x % n + 1) % n == (x + 1) % n
  {
    var q, r := x / n, x % n;
    if r + 1 < n {
      DivModUnique(x + 1, n, q, r + 1);
      DivModUnique(r + 1, n, 0, r + 1);
    } else {
      DivModUnique(x + 1, n, q + 1, 0);
      DivModUnique(r + 1, n, 1, 0);
    }
  }

  /** Every switch keeps the index in range. */
  lemma AdvanceInRange(i: nat, n: nat, k: nat)
    requires 0 < n && i < n
    ensures Advance(i, n, k) < n
  {
    AdvanceAdds(i, n, k);
  }

  /** n switches among n characters bring the index back to where it started. */
  lemma CycleReturns(i: nat, n: nat)
    requires 0 < n && i < n
    ensures Advance(i, n, n) == i
  {
    AdvanceAdds(i, n, n);
    DivModUnique(i + n, n, 1, i);
  }

  /** The camera's follow and look-at target: a character by position, or none assigned yet. */
  datatype CameraTarget = Unassigned | Character(index: nat)

  class CharacterSwitcher {
    /** The SetActive flag of characters[i], for each position i of the list. */
    const active: array<bool>
    var currentIndex: nat
    /** cineCamera.Follow and cineCamera.LookAt. */
    var follow: CameraTarget
    var lookAt: CameraTarget

    /** The character list is non-empty and the index names one of its characters. */
    ghost predicate Valid()
      reads this
    {
      active.Length > 0 && currentIndex < active.Length
    }

    /** Exactly one character, the current one, is active, and the camera follows and looks at it. */
    ghost predicate OnlyCurrentActive()
      reads this, active
    {
      && (forall j :: 0 <= j < active.Length ==> (active[j] <==> j == currentIndex))
      && follow == Character(currentIndex)
      && lookAt == Character(currentIndex)
    }

    /** A switcher over characters whose flags are as the scene left them. */
    constructor (flags: seq<bool>)
      requires |flags| > 0
      ensures Valid() && fresh(active)
      ensures active[..] == flags && currentIndex == 0
      ensures follow == Unassigned && lookAt == Unassigned
    {
      active := new bool[|flags|](i requires 0 <= i < |flags| => flags[i]);
      currentIndex := 0;
      follow, lookAt := Unassigned, Unassigned;
    }

    /** Start: deactivate every character, then activate the current one. */
    method Start()
      requires Valid()
      modifies this, active
      ensures Valid() && OnlyCurrentActive()
      ensures currentIndex == old(currentIndex)
    {
      for j := 0 to active.Length
        invariant unchanged(this)
        invariant forall k :: 0 <= k < j ==> !active[k]
      {
        active[j] := false;
      }
      ActivateCharacter(currentIndex);
    }

    /** SwitchCharacter: deactivate the current character and activate the next one, wrapping around. */
    method SwitchCharacter()
      requires Valid()
      modifies this, active
      ensures Valid()
      ensures currentIndex == Next(old(currentIndex), active.Length)
      ensures active[..] == old(active[..])[old(currentIndex) := false][currentIndex := true]
      ensures follow == Character(currentIndex) && lookAt == Character(currentIndex)
      ensures old(OnlyCurrentActive()) ==> OnlyCurrentActive()
    {
      active[currentIndex] := false;
      currentIndex := (currentIndex + 1) % active.Length;
      ActivateCharacter(currentIndex);
    }

    /** ActivateCharacter: activate character `index` and point the camera at it. */
    method ActivateCharacter(index: nat)
      requires index < active.Length
      modifies this`follow, this`lookAt, active
      ensures active[..] == old(active[..])[index := true]
      ensures follow == Character(index) && lookAt == Character(index)
    {
      active[index] := true;
      follow := Character(index);
      lookAt := Character(index);
    }
  }

  /** Switching as many times as there are characters brings back the first active character. */
  method SwitchAround(s: CharacterSwitcher)
    requires s.Valid() && s.OnlyCurrentActive()
    modifies s, s.active
    ensures s.Valid() && s.OnlyCurrentActive()
    ensures s.currentIndex == old(s.currentIndex)
  {
    var k := 0;
    while k < s.active.Length
      invariant 0 <= k <= s.active.Length
      invariant s.Valid() && s.OnlyCurrentActive()
      invariant s.currentIndex == Advance(old(s.currentIndex), s.active.Length, k)
    {
      s.SwitchCharacter();
      k := k + 1;
    }
    CycleReturns(old(s.currentIndex), s.active.Length);
  }
}
