/**
 * The interactive repository-selection menu: a cursor and one flag per catalog
 * entry, changed by one keypress at a time, and the list chosen on confirm.
 */
module Menu {
  import opened Catalog
  import opened Seqs

  /** The keys the handler distinguishes; anything else read from the terminal is `Other`. */
  datatype Key = Interrupt | Enter | Up | Down | Space | Other

  /** What the handler does after a key: redraw, nothing, hand the chosen list to cloning, or exit. */
  datatype Reaction = Redraw | Ignored | Confirmed(chosen: seq<Repo>) | Exit

  /** The raw-mode chunks the handler compares against. */
  function Classify(data: string): Key
  {
    if data == [3 as char] then Interrupt
    else if data == "\r" then Enter
    else if data == [27 as char, '[', 'A'] then Up
    else if data == [27 as char, '[', 'B'] then Down
    else if data == " " then Space
    else Other
  }

  /** Each of the five chunks the handler knows has its own key; every other chunk is ignored as `Other`. */
  lemma ClassifySpec(data: string)
    ensures Classify(data) == Interrupt <==> data == [3 as char]
    ensures Classify(data) == Enter <==> data == "\r"
    ensures Classify(data) == Up <==> data == [27 as char, '[', 'A']
    ensures Classify(data) == Down <==> data == [27 as char, '[', 'B']
    ensures Classify(data) == Space <==> data == " "
    ensures |data| != 1 && |data| != 3 ==> Classify(data) == Other
  {
  }

  /** `(cursor - 1 + n) % n`: one entry up, from the first entry to the last. */
  function MoveUp(cursor: nat, n: nat): (r: nat)
    requires cursor < n
    ensures r < n
    ensures r == if cursor == 0 then n - 1 else cursor - 1
  {
    ModInRange(cursor - 1 + n, n);
    (cursor - 1 + n) % n
  }

  /** `(cursor + 1) % n`: one entry down, from the last entry to the first. */
  function MoveDown(cursor: nat, n: nat): (r: nat)
    requires cursor < n
    ensures r < n
    ensures r == if cursor == n - 1 then 0 else cursor + 1
  {
    ModInRange(cursor + 1, n);
    (cursor + 1) % n
  }

  /** The remainder of a number below `2 * n`. */
  lemma ModInRange(x: int, n: int)
    requires 0 <= x < 2 * n
    ensures x % n == if x < n then x else x - n
  {
    if x < n {
      assert x == 0 * n + x;
    } else {
      assert x == 1 * n + (x - n);
    }
  }

  /** UP and DOWN undo each other. */
  lemma UpDownInverse(cursor: nat, n: nat)
    requires cursor < n
    ensures MoveDown(MoveUp(cursor, n), n) == cursor
    ensures MoveUp(MoveDown(cursor, n), n) == cursor
  {
  }

  /** The cursor after `k` presses of DOWN. */
  function DownTimes(cursor: nat, n: nat, k: nat): (r: nat)
    requires cursor < n
    ensures r < n
  {
    if k == 0 then cursor else MoveDown(DownTimes(cursor, n, k - 1), n)
  }

  /** After `k <= n` presses of DOWN the cursor has advanced by `k`, wrapping once past the end. */
  lemma {:induction false} DownTimesAdvances(cursor: nat, n: nat, k: nat)
    requires cursor < n && k <= n
    ensures DownTimes(cursor, n, k) == if cursor + k < n then cursor + k else cursor + k - n
  {
    if k > 0 {
      DownTimesAdvances(cursor, n, k - 1);
    }
  }

  /** Pressing DOWN once per entry brings the cursor back where it was. */
  lemma FullCycle(cursor: nat, n: nat)
    requires cursor < n
    ensures DownTimes(cursor, n, n) == cursor
  {
    DownTimesAdvances(cursor, n, n);
  }

  /** `selected[cursor] = !selected[cursor]`. */
  function Toggle(flags: seq<bool>, i: nat): (r: seq<bool>)
    requires i < |flags|
    ensures |r| == |flags| && r[i] == !flags[i]
    ensures forall j :: 0 <= j < |flags| && j != i ==> r[j] == flags[j]
  {
    flags[i := !flags[i]]
  }

  /** SPACE twice on the same entry restores the flags. */
  lemma ToggleTwice(flags: seq<bool>, i: nat)
    requires i < |flags|
    ensures Toggle(Toggle(flags, i), i) == flags
  {
  }

  /** The flags after SPACE was pressed on each entry of `presses`, in that order. */
  function ToggleAll(flags: seq<bool>, presses: seq<nat>): (r: seq<bool>)
    requires forall k :: 0 <= k < |presses| ==> presses[k] < |flags|
    ensures |r| == |flags|
    decreases |presses|
  {
    if presses == [] then flags else ToggleAll(Toggle(flags, presses[0]), presses[1..])
  }

  /** An entry's flag is flipped once per press on it. */
  lemma {:induction false} ToggleAllAt(flags: seq<bool>, presses: seq<nat>, j: nat)
    requires forall k :: 0 <= k < |presses| ==> presses[k] < |flags|
    requires j < |flags|
    ensures ToggleAll(flags, presses)[j] == (flags[j] != (multiset(presses)[j] % 2 == 1))
    decreases |presses|
  {
    if presses != [] {
      ToggleAllAt(Toggle(flags, presses[0]), presses[1..], j);
      assert presses == [presses[0]] + presses[1..];
      assert multiset(presses) == multiset{presses[0]} + multiset(presses[1..]);
    }
  }

  /** The order of the SPACE presses does not matter, only how often each entry was pressed. */
  lemma ToggleOrderIrrelevant(flags: seq<bool>, p: seq<nat>, q: seq<nat>)
    requires forall k :: 0 <= k < |p| ==> p[k] < |flags|
    requires forall k :: 0 <= k < |q| ==> q[k] < |flags|
    requires multiset(p) == multiset(q)
    ensures ToggleAll(flags, p) == ToggleAll(flags, q)
  {
    forall j | 0 <= j < |flags| ensures ToggleAll(flags, p)[j] == ToggleAll(flags, q)[j] {
      ToggleAllAt(flags, p, j);
      ToggleAllAt(flags, q, j);
    }
  }

  /** `repos.filter((_, idx) => selected[idx])`. */
  function Flagged(items: seq<Repo>, flags: seq<bool>): (kept: seq<Repo>)
    requires |flags| == |items|
    ensures IsSubsequence(kept, items)
    decreases |items|
  {
    if items == [] then []
    else if flags[0] then [items[0]] + Flagged(items[1..], flags[1..])
    else Flagged(items[1..], flags[1..])
  }

  /** An element is kept exactly when it stands at a flagged position. */
  lemma {:induction false} FlaggedMembers(items: seq<Repo>, flags: seq<bool>, x: Repo)
    requires |flags| == |items|
    ensures x in Flagged(items, flags) <==> exists j :: 0 <= j < |items| && flags[j] && items[j] == x
    decreases |items|
  {
    if items != [] {
      FlaggedMembers(items[1..], flags[1..], x);
      if exists j :: 0 <= j < |items| - 1 && flags[1..][j] && items[1..][j] == x {
        var j :| 0 <= j < |items| - 1 && flags[1..][j] && items[1..][j] == x;
        assert flags[j + 1] && items[j + 1] == x;
      }
      if exists j :: 0 <= j < |items| && flags[j] && items[j] == x {
        var j :| 0 <= j < |items| && flags[j] && items[j] == x;
        if j > 0 {
          assert flags[1..][j - 1] && items[1..][j - 1] == x;
        }
      }
    }
  }

  /** Filtering distributes over concatenation. */
  lemma {:induction false} FlaggedAppend(a: seq<Repo>, fa: seq<bool>, b: seq<Repo>, fb: seq<bool>)
    requires |fa| == |a| && |fb| == |b|
    ensures Flagged(a + b, fa + fb) == Flagged(a, fa) + Flagged(b, fb)
    decreases |a|
  {
    if a != [] {
      assert (a + b)[1..] == a[1..] + b;
      assert (fa + fb)[1..] == fa[1..] + fb;
      FlaggedAppend(a[1..], fa[1..], b, fb);
    } else {
      assert a + b == b && fa + fb == fb;
    }
  }

  /** The list handed to cloning on ENTER: the flagged entries, or the whole catalog if none is flagged. */
  function Chosen(items: seq<Repo>, flags: seq<bool>): seq<Repo>
    requires |flags| == |items|
  {
    if true in flags then Flagged(items, flags) else items
  }

  /**
   * On ENTER the chosen list keeps catalog order; with a flag set it holds exactly the
   * flagged entries, and with none set it is the whole catalog.
   */
  lemma ChosenSpec(items: seq<Repo>, flags: seq<bool>)
    requires |flags| == |items| && Distinct(items)
    ensures IsSubsequence(Chosen(items, flags), items)
    ensures true in flags ==> forall i :: 0 <= i < |items| ==> (items[i] in Chosen(items, flags) <==> flags[i])
    ensures true !in flags ==> Chosen(items, flags) == items
  {
    if true in flags {
      forall i | 0 <= i < |items| ensures items[i] in Chosen(items, flags) <==> flags[i] {
        FlaggedMembers(items, flags, items[i]);
      }
    } else {
      SubsequenceReflexive(items);
    }
  }

  /** Any list in catalog order holding exactly the flagged entries is the chosen list. */
  lemma ChosenIsUnique(items: seq<Repo>, flags: seq<bool>, c: seq<Repo>)
    requires |flags| == |items| && Distinct(items) && true in flags
    requires IsSubsequence(c, items)
    requires forall i :: 0 <= i < |items| ==> (items[i] in c <==> flags[i])
    ensures c == Chosen(items, flags)
  {
    var chosen := Chosen(items, flags);
    ChosenSpec(items, flags);
    SubsequenceMembers(c, items);
    SubsequenceMembers(chosen, items);
    forall x ensures x in c <==> x in chosen {
      if x in c || x in chosen {
        var i :| 0 <= i < |items| && items[i] == x;
      }
    }
    SubsequenceDeterminedByMembers(c, chosen, items);
  }

  /** No flags set. */
  function Unselected(n: nat): (flags: seq<bool>)
    ensures |flags| == n && true !in flags
  {
    seq(n, _ => false)
  }

  /** ENTER before any SPACE chooses the whole catalog. */
  lemma ConfirmAtStart()
    ensures Chosen(Repos, Unselected(|Repos|)) == Repos
  {
  }

  /** The menu's state: the closure variables `cursor` and `selected` of the key handler. */
  class SelectionMenu {
    var cursor: nat
    const selected: array<bool>

    ghost predicate Valid()
      reads this
    {
      selected.Length == |Repos| && cursor < |Repos|
    }

    /** The menu opens on the first entry with nothing selected. */
    constructor ()
      ensures Valid() && fresh(selected)
      ensures cursor == 0 && selected[..] == Unselected(|Repos|)
    {
      cursor := 0;
      selected := new bool[|Repos|](_ => false);
    }

    /** One chunk of terminal input. */
    method Step(data: string) returns (reaction: Reaction)
      requires Valid()
      modifies this, selected
      ensures Valid()
      ensures Classify(data) == Up ==>
        cursor == MoveUp(old(cursor), |Repos|) && selected[..] == old(selected[..]) && reaction == Redraw
      ensures Classify(data) == Down ==>
        cursor == MoveDown(old(cursor), |Repos|) && selected[..] == old(selected[..]) && reaction == Redraw
      ensures Classify(data) == Space ==>
        cursor == old(cursor) && selected[..] == Toggle(old(selected[..]), old(cursor)) && reaction == Redraw
      ensures Classify(data) == Enter ==>
        cursor == old(cursor) && selected[..] == old(selected[..]) && reaction == Confirmed(Chosen(Repos, selected[..]))
      ensures Classify(data) == Interrupt ==>
        cursor == old(cursor) && selected[..] == old(selected[..]) && reaction == Exit
      ensures Classify(data) == Other ==>
        cursor == old(cursor) && selected[..] == old(selected[..]) && reaction == Ignored
    {
      match Classify(data)
      case Interrupt =>
        reaction := Exit;
      case Enter =>
        reaction := Confirmed(Chosen(Repos, selected[..]));
      case Up =>
        cursor := MoveUp(cursor, |Repos|);
        reaction := Redraw;
      case Down =>
        cursor := MoveDown(cursor, |Repos|);
        reaction := Redraw;
      case Space =>
        selected[cursor] := !selected[cursor];
        reaction := Redraw;
      case Other =>
        reaction := Ignored;
    }
  }
}
