/** Check-box selections kept as `{ [id]: bool }` objects: `selectedMenus` in the group form and
    `selectedModules` in the create-group dialog. */
module Selection {

  /** `!!m[k]`: an id that was never toggled reads as `undefined`, which is unchecked. */
  predicate IsChecked(m: map<int, bool>, k: int) {
    k in m && m[k]
  }

  /** `Object.keys(m).filter((key) => m[key])`, as a set of ids. */
  function CheckedKeys(m: map<int, bool>): set<int> {
    set k | k in m && m[k]
  }

  predicate IsLeast(m: int, s: set<int>) {
    m in s && forall x | x in s :: m <= x
  }

  /** The least id of a non-empty set. */
  function Least(s: set<int>): (r: int)
    requires s != {}
    ensures r in s && forall x | x in s :: r <= x
  {
    LeastExists(s);
    var m :| IsLeast(m, s);
    m
  }

  /** Every non-empty finite set of ids has a least element. */
  lemma {:induction false} LeastExists(s: set<int>)
    requires s != {}
    ensures exists m :: IsLeast(m, s)
    decreases |s|
  {
    assert exists y :: y in s by {
      if forall y :: y !in s {
        assert false;
      }
    }
    var y :| y in s;
    if s == {y} {
      assert IsLeast(y, s);
    } else {
      var rest := s - {y};
      LeastExists(rest);
      var m :| IsLeast(m, rest);
      var least := if y < m then y else m;
      forall x | x in s
        ensures least <= x
      {
        if x != y {
          assert x in rest;
        }
      }
      assert IsLeast(least, s);
    }
  }

  predicate StrictlyAscending(s: seq<int>) {
    forall i, j | 0 <= i < j < |s| :: s[i] < s[j]
  }

  /** `Object.keys` of an object keyed by ids: integer keys enumerate in ascending numeric order. */
  function AscendingKeys(s: set<int>): (r: seq<int>)
    ensures StrictlyAscending(r)
    ensures forall x :: x in r <==> x in s
  {
    if s == {} then []
    else
      var m := Least(s);
      [m] + AscendingKeys(s - {m})
  }

  /** `Object.keys(m).filter((key) => m[key])`: the checked ids, each once, in ascending order. */
  function SelectedIds(m: map<int, bool>): (r: seq<int>)
    ensures StrictlyAscending(r)
    ensures forall x :: x in r <==> IsChecked(m, x)
  {
    AscendingKeys(CheckedKeys(m))
  }

  /** `{ ...prev, [k]: !prev[k] }`: flips the entry for `k` and leaves every other entry as it was. */
  function Toggle(m: map<int, bool>, k: int): (r: map<int, bool>)
    ensures r.Keys == m.Keys + {k}
    ensures IsChecked(r, k) == !IsChecked(m, k)
    ensures forall j | j in m && j != k :: r[j] == m[j]
  {
    m[k := !IsChecked(m, k)]
  }

  /** Toggling adds the id to the checked set when it was unchecked and removes it otherwise. */
  lemma ToggleFlipsMembership(m: map<int, bool>, k: int)
    ensures CheckedKeys(Toggle(m, k)) ==
            if k in CheckedKeys(m) then CheckedKeys(m) - {k} else CheckedKeys(m) + {k}
  {
    var r := Toggle(m, k);
    if k in CheckedKeys(m) {
      assert CheckedKeys(r) == CheckedKeys(m) - {k};
    } else {
      assert CheckedKeys(r) == CheckedKeys(m) + {k};
    }
  }

  /** Toggling the same id twice restores the checked set. */
  lemma ToggleTwiceRestores(m: map<int, bool>, k: int)
    ensures CheckedKeys(Toggle(Toggle(m, k), k)) == CheckedKeys(m)
  {
    ToggleFlipsMembership(m, k);
    ToggleFlipsMembership(Toggle(m, k), k);
  }
}
