/**
 * The role list that `assign_roles` deals before shuffling: a function of
 * the number of players only. It is built the way the source builds it, by
 * Python slice assignment on a list of civilians, so that for fewer than
 * three players the list grows to three roles (and the zip with the players
 * then drops the surplus).
 */
module Deal {
  import opened Models

  function Max(a: int, b: int): int
  {
    if a >= b then a else b
  }

  function Repeat<T>(x: T, k: nat): (r: seq<T>)
    ensures |r| == k && forall i :: 0 <= i < k ==> r[i] == x
  {
    seq(k, _ => x)
  }

  /**
   * Python's `s[lo:hi] = t` for non-negative bounds: the bounds are clipped
   * to the list, an empty or reversed slice becomes an insertion point, and
   * the slice is replaced by `t` whatever the two lengths.
   */
  function SliceAssign<T>(s: seq<T>, lo: nat, hi: nat, t: seq<T>): (r: seq<T>)
    ensures lo <= hi <= |s| ==> |r| == |s| - (hi - lo) + |t|
    ensures |s| <= lo ==> r == s + t
    ensures lo <= hi <= |s| ==> r[..lo] == s[..lo] && r[lo..lo + |t|] == t && r[lo + |t|..] == s[hi..]
  {
    var a := if lo < |s| then lo else |s|;
    var b := if hi < a then a else if hi < |s| then hi else |s|;
    s[..a] + t + s[b..]
  }

  /** `max(1, num_players // 3)` */
  function MafiaCount(n: nat): nat
  {
    Max(1, n / 3)
  }

  /**
   * The deal before shuffling: `[CIVILIAN] * n`, the first `MafiaCount(n)`
   * slots replaced by Mafia and one Don, the next two by Doctor and
   * Commissioner, and slot `MafiaCount(n) + 2` by Lawyer from 8 players on.
   * It holds `n` roles from 3 players on and 3 roles below that.
   */
  function DealRoles(n: nat): (roles: seq<Role>)
    ensures |roles| == Max(n, 3)
  {
    var m := MafiaCount(n);
    var r1 := SliceAssign(Repeat(Civilian, n), 0, m, Repeat(Mafia, m - 1) + [Don]);
    var r2 := SliceAssign(r1, m, m + 2, [Doctor, Commissioner]);
    if n >= 8 then r2[m + 2 := Lawyer] else r2
  }

  /** How many civilians fill the deal of `n >= 3` players. */
  function CivilianCount(n: nat): int
  {
    n - MafiaCount(n) - 2 - (if n >= 8 then 1 else 0)
  }

  /** From 3 players on, the deal in slot order: the mafia, the Don, Doctor, Commissioner, maybe Lawyer, then civilians. */
  lemma DealShape(n: nat)
    requires n >= 3
    ensures CivilianCount(n) >= 0
    ensures DealRoles(n)
         == Repeat(Mafia, MafiaCount(n) - 1) + [Don, Doctor, Commissioner]
          + (if n >= 8 then [Lawyer] else []) + Repeat(Civilian, CivilianCount(n))
  {
    var m := MafiaCount(n);
    var r2 := SliceAssign(SliceAssign(Repeat(Civilian, n), 0, m, Repeat(Mafia, m - 1) + [Don]), m, m + 2, [Doctor, Commissioner]);
    SpecialSlots(n);
    if n >= 8 {
      assert r2[m + 2 := Lawyer]
          == Repeat(Mafia, m - 1) + [Don, Doctor, Commissioner] + [Lawyer] + Repeat(Civilian, n - m - 3);
    } else {
      assert r2 == Repeat(Mafia, m - 1) + [Don, Doctor, Commissioner] + [] + Repeat(Civilian, n - m - 2);
    }
  }

  /** The first slice assignment puts the mafia and the Don in the first `MafiaCount(n)` slots. */
  lemma MafiaSlots(n: nat)
    requires n >= 3
    ensures var m := MafiaCount(n);
      SliceAssign(Repeat(Civilian, n), 0, m, Repeat(Mafia, m - 1) + [Don])
        == Repeat(Mafia, m - 1) + [Don] + Repeat(Civilian, n - m)
  {
  }

  /** The second slice assignment puts Doctor and Commissioner right after them. */
  lemma SpecialSlots(n: nat)
    requires n >= 3
    ensures var m := MafiaCount(n);
      && n - m - 2 >= 0
      && SliceAssign(SliceAssign(Repeat(Civilian, n), 0, m, Repeat(Mafia, m - 1) + [Don]), m, m + 2, [Doctor, Commissioner])
        == Repeat(Mafia, m - 1) + [Don, Doctor, Commissioner] + Repeat(Civilian, n - m - 2)
  {
    MafiaSlots(n);
    var m := MafiaCount(n);
    var r1 := Repeat(Mafia, m - 1) + [Don] + Repeat(Civilian, n - m);
    assert SliceAssign(r1, m, m + 2, [Doctor, Commissioner])
        == Repeat(Mafia, m - 1) + [Don, Doctor, Commissioner] + Repeat(Civilian, n - m - 2);
  }

  /** Below 3 players the slice assignments grow the list to Don, Doctor, Commissioner. */
  lemma DealBelowThree(n: nat)
    requires n < 3
    ensures DealRoles(n) == [Don, Doctor, Commissioner]
  {
    var r0 := Repeat(Civilian, n);
    var r1 := SliceAssign(r0, 0, 1, [Don]);
    assert Repeat(Mafia, 0) + [Don] == [Don];
    assert r1 == [Don] + Repeat(Civilian, if n == 0 then 0 else n - 1);
    var r2 := SliceAssign(r1, 1, 3, [Doctor, Commissioner]);
    assert r2 == [Don, Doctor, Commissioner];
  }

  lemma RepeatCount(x: Role, k: nat, y: Role)
    ensures multiset(Repeat(x, k))[y] == if x == y then k else 0
  {
    if k > 0 {
      assert Repeat(x, k) == Repeat(x, k - 1) + [x];
      RepeatCount(x, k - 1, y);
    }
  }

  /**
   * From 3 players on the deal holds exactly one Don, `MafiaCount(n) - 1`
   * Mafia, one Doctor, one Commissioner, one Lawyer iff `n >= 8`, and
   * civilians in every other slot; so `MafiaCount(n)` players are
   * mafia-aligned.
   */
  lemma DealCounts(n: nat)
    requires n >= 3
    ensures var d, m, l := multiset(DealRoles(n)), MafiaCount(n), if n >= 8 then 1 else 0;
      && |DealRoles(n)| == n
      && d[Don] == 1 && d[Mafia] == m - 1 && d[Mafia] + d[Don] == m
      && d[Doctor] == 1 && d[Commissioner] == 1 && d[Lawyer] == l
      && d[Civilian] == n - m - 2 - l
  {
    DealShape(n);
    var m, c := MafiaCount(n), CivilianCount(n);
    ShapeCount(m - 1, n >= 8, c);
  }

  /** The role counts of a deal in the shape `DealShape` describes. */
  lemma ShapeCount(k: nat, lawyer: bool, c: nat)
    ensures var d := multiset(Repeat(Mafia, k) + [Don, Doctor, Commissioner]
                              + (if lawyer then [Lawyer] else []) + Repeat(Civilian, c));
      && d[Mafia] == k && d[Don] == 1 && d[Doctor] == 1 && d[Commissioner] == 1
      && d[Lawyer] == (if lawyer then 1 else 0) && d[Civilian] == c
  {
    ShapeCountOf(k, lawyer, c, Mafia);
    ShapeCountOf(k, lawyer, c, Don);
    ShapeCountOf(k, lawyer, c, Doctor);
    ShapeCountOf(k, lawyer, c, Commissioner);
    ShapeCountOf(k, lawyer, c, Lawyer);
    ShapeCountOf(k, lawyer, c, Civilian);
  }

  /** The count of one role in that shape: its count in each of the four parts, added up. */
  lemma ShapeCountOf(k: nat, lawyer: bool, c: nat, y: Role)
    ensures multiset(Repeat(Mafia, k) + [Don, Doctor, Commissioner]
                     + (if lawyer then [Lawyer] else []) + Repeat(Civilian, c))[y]
         == (if y == Mafia then k else 0) + (if y == Civilian then c else 0)
          + (if y in [Don, Doctor, Commissioner] then 1 else 0) + (if lawyer && y == Lawyer then 1 else 0)
  {
    RepeatCount(Mafia, k, y);
    RepeatCount(Civilian, c, y);
  }

  /** Four players, the number at which a lobby starts, are dealt Don, Doctor, Commissioner and one civilian. */
  lemma DealOfFour()
    ensures DealRoles(4) == [Don, Doctor, Commissioner, Civilian]
  {
    DealShape(4);
    assert Repeat(Mafia, 0) == [] && Repeat(Civilian, 1) == [Civilian];
  }

  /** Below six players no plain Mafia is dealt, so no dealt role has the Kill action. */
  lemma NoMafiaBelowSix(n: nat)
    requires n < 6
    ensures Mafia !in DealRoles(n)
  {
    if n < 3 {
      DealBelowThree(n);
    } else {
      DealShape(n);
      assert Repeat(Mafia, MafiaCount(n) - 1) == [];
      var tail := Repeat(Civilian, CivilianCount(n));
      assert Mafia !in tail;
    }
  }
}
