/** List editing: what LREM deletes, pushes and pops, all on plain sequences. */
module Lists {

  function Reverse<T>(s: seq<T>): (r: seq<T>)
    ensures |r| == |s|
  {
    if s == [] then [] else [s[|s| - 1]] + Reverse(s[..|s| - 1])
  }

  lemma {:induction false} ReverseAppend<T>(a: seq<T>, b: seq<T>)
    ensures Reverse(a + b) == Reverse(b) + Reverse(a)
  {
    if b == [] {
      assert a + b == a;
    } else {
      assert (a + b)[..|a + b| - 1] == a + b[..|b| - 1];
      ReverseAppend(a, b[..|b| - 1]);
    }
  }

  lemma {:induction false} ReverseTwice<T>(s: seq<T>)
    ensures Reverse(Reverse(s)) == s
  {
    if s == [] {
    } else {
      var init, last := s[..|s| - 1], s[|s| - 1];
      ReverseTwice(init);
      assert Reverse(s) == [last] + Reverse(init);
      ReverseAppend([last], Reverse(init));
      assert Reverse([last]) == [last];
    }
  }

  // ------------------------------------------------------------------- LREM

  /** The forward loop: delete the next `count` matches, scanning from the front. */
  function RemoveFirst(s: seq<string>, count: nat, value: string): seq<string> {
    if s == [] || count == 0 then s
    else if s[0] == value then RemoveFirst(s[1..], count - 1, value)
    else [s[0]] + RemoveFirst(s[1..], count, value)
  }

  /** The backward loop: delete `count` matches, scanning from the back. */
  function RemoveLast(s: seq<string>, count: nat, value: string): seq<string> {
    if s == [] || count == 0 then s
    else
      var init, last := s[..|s| - 1], s[|s| - 1];
      if last == value then RemoveLast(init, count - 1, value)
      else RemoveLast(init, count, value) + [last]
  }

  /** LREM by the sign of its count; a zero count deletes nothing, its erase being commented out. */
  function Remove(s: seq<string>, count: int, value: string): seq<string> {
    if count >= 0 then RemoveFirst(s, count, value) else RemoveLast(s, -count, value)
  }

  /** One pass of the forward loop at position `it`: a match is erased, anything else stepped over. */
  lemma ForwardPass(list: seq<string>, it: nat, count: nat, value: string)
    requires it < |list| && count > 0
    ensures var erased := list[..it] + list[it + 1..];
      list[..it] + RemoveFirst(list[it..], count, value) ==
      if list[it] == value then erased[..it] + RemoveFirst(erased[it..], count - 1, value)
      else list[..it + 1] + RemoveFirst(list[it + 1..], count, value)
  {
    var erased := list[..it] + list[it + 1..];
    assert erased[it..] == list[it + 1..] == list[it..][1..] && erased[..it] == list[..it];
  }

  /** One pass of the backward loop. */
  lemma BackwardPass(list: seq<string>, i: nat, count: nat, value: string)
    requires i < |list| && count > 0
    ensures var erased := list[..i] + list[i + 1..];
      RemoveLast(list[..i + 1], count, value) + list[i + 1..] ==
      if list[i] == value then RemoveLast(erased[..i], count - 1, value) + erased[i..]
      else RemoveLast(list[..i], count, value) + list[i..]
  {
    var erased := list[..i] + list[i + 1..];
    assert list[..i + 1][..i] == list[..i] == erased[..i] && erased[i..] == list[i + 1..];
  }

  /** Either loop at its end. */
  lemma NothingLeft(list: seq<string>, count: nat, value: string)
    requires list == [] || count == 0
    ensures RemoveFirst(list, count, value) == RemoveLast(list, count, value) == list
  {
  }

  lemma {:induction false} ReverseAt<T>(s: seq<T>, i: nat)
    requires i < |s|
    ensures Reverse(s)[i] == s[|s| - 1 - i]
  {
    if i == 0 {
    } else {
      ReverseAt(s[..|s| - 1], i - 1);
    }
  }

  function Occurrences(s: seq<string>, value: string): nat {
    multiset(s)[value]
  }

  /** Which positions LREM deletes, said without any loop: a position goes exactly when it holds the value
      and fewer than |count| matches come before it (after it, for a negative count). */
  predicate Goes(s: seq<string>, count: int, value: string, i: nat)
    requires i < |s|
  {
    s[i] == value && (Occurrences(s[..i], value) < count || Occurrences(s[i + 1..], value) < -count)
  }

  function Doomed(s: seq<string>, count: int, value: string): seq<bool> {
    seq(|s|, i requires 0 <= i < |s| => Goes(s, count, value, i))
  }

  /** The elements at the unmarked positions, in order. */
  function Survivors<T>(s: seq<T>, doomed: seq<bool>): seq<T>
    requires |doomed| == |s|
  {
    if s == [] then []
    else (if doomed[0] then [] else [s[0]]) + Survivors(s[1..], doomed[1..])
  }

  function Marked(doomed: seq<bool>): nat {
    if doomed == [] then 0 else (if doomed[0] then 1 else 0) + Marked(doomed[1..])
  }

  lemma OccurrencesCons(x: string, s: seq<string>, value: string)
    ensures Occurrences([x] + s, value) == (if x == value then 1 else 0) + Occurrences(s, value)
  {
  }

  lemma OccurrencesSnoc(s: seq<string>, x: string, value: string)
    ensures Occurrences(s + [x], value) == (if x == value then 1 else 0) + Occurrences(s, value)
  {
  }

  /** The doomed positions after the first, when the first element has been dealt with. */
  lemma DoomedTail(s: seq<string>, count: int, value: string)
    requires s != [] && count > 0
    ensures Doomed(s, count, value)[1..] == Doomed(s[1..], if s[0] == value then count - 1 else count, value)
  {
    var rest := if s[0] == value then count - 1 else count;
    forall i: nat | i < |s| - 1
      ensures Doomed(s, count, value)[i + 1] == Doomed(s[1..], rest, value)[i]
    {
      GoesAfterFirst(s, count, value, i);
    }
  }

  lemma GoesAfterFirst(s: seq<string>, count: int, value: string, i: nat)
    requires i + 1 < |s| && count > 0
    ensures Goes(s, count, value, i + 1) == Goes(s[1..], if s[0] == value then count - 1 else count, value, i)
  {
    assert s[..i + 1] == [s[0]] + s[1..][..i];
    OccurrencesCons(s[0], s[1..][..i], value);
  }

  lemma GoesBeforeLast(s: seq<string>, count: int, value: string, i: nat)
    requires i + 1 < |s| && count < 0
    ensures var n := |s| - 1;
      Goes(s, count, value, i) == Goes(s[..n], if s[n] == value then count + 1 else count, value, i)
  {
    var n := |s| - 1;
    assert s[i + 1..] == s[..n][i + 1..] + [s[n]];
    OccurrencesSnoc(s[..n][i + 1..], s[n], value);
  }

  lemma DoomedInit(s: seq<string>, count: int, value: string)
    requires s != [] && count < 0
    ensures var n := |s| - 1;
      Doomed(s, count, value)[..n] == Doomed(s[..n], if s[n] == value then count + 1 else count, value)
  {
    var n := |s| - 1;
    var rest := if s[n] == value then count + 1 else count;
    forall i: nat | i < n
      ensures Doomed(s, count, value)[i] == Doomed(s[..n], rest, value)[i]
    {
      GoesBeforeLast(s, count, value, i);
    }
  }

  lemma {:induction false} NoneDoomed(s: seq<string>, value: string)
    ensures Survivors(s, Doomed(s, 0, value)) == s && Marked(Doomed(s, 0, value)) == 0
  {
    if s == [] {
    } else {
      assert Doomed(s, 0, value)[1..] == Doomed(s[1..], 0, value);
      NoneDoomed(s[1..], value);
    }
  }

  lemma {:induction false} RemoveFirstIsPositional(s: seq<string>, count: nat, value: string)
    ensures RemoveFirst(s, count, value) == Survivors(s, Doomed(s, count, value))
    ensures Marked(Doomed(s, count, value)) == Min(count, Occurrences(s, value))
  {
    if count == 0 {
      NoneDoomed(s, value);
    } else if s != [] {
      DoomedTail(s, count, value);
      assert s == [s[0]] + s[1..];
      OccurrencesCons(s[0], s[1..], value);
      RemoveFirstIsPositional(s[1..], if s[0] == value then count - 1 else count, value);
    }
  }

  lemma {:induction false} SurvivorsSnoc<T>(s: seq<T>, doomed: seq<bool>)
    requires |doomed| == |s| && s != []
    ensures var n := |s| - 1;
      Survivors(s, doomed) == Survivors(s[..n], doomed[..n]) + (if doomed[n] then [] else [s[n]]) &&
      Marked(doomed) == Marked(doomed[..n]) + (if doomed[n] then 1 else 0)
  {
    var n := |s| - 1;
    if n == 0 {
    } else {
      SurvivorsSnoc(s[1..], doomed[1..]);
      assert s[..n][1..] == s[1..][..n - 1] && doomed[..n][1..] == doomed[1..][..n - 1];
    }
  }

  /** Counting from the back, the last position goes whenever it matches. */
  lemma LastGoes(s: seq<string>, count: int, value: string)
    requires s != [] && count < 0
    ensures Doomed(s, count, value)[|s| - 1] <==> s[|s| - 1] == value
  {
    assert s[|s|..] == [];
  }

  /** What the last element adds when the backward count is not used up. */
  lemma LastStep(s: seq<string>, count: int, value: string)
    requires s != [] && count < 0
    ensures var n := |s| - 1;
      var rest := Doomed(s[..n], if s[n] == value then count + 1 else count, value);
      && Survivors(s, Doomed(s, count, value)) == Survivors(s[..n], rest) + (if s[n] == value then [] else [s[n]])
      && Marked(Doomed(s, count, value)) == Marked(rest) + (if s[n] == value then 1 else 0)
  {
    hide Survivors;
    hide Goes;
    hide Marked;
    var n := |s| - 1;
    DoomedInit(s, count, value);
    SurvivorsSnoc(s, Doomed(s, count, value));
    LastGoes(s, count, value);
  }

  lemma {:induction false} RemoveLastIsPositional(s: seq<string>, count: int, value: string)
    requires count >= 0
    ensures RemoveLast(s, count, value) == Survivors(s, Doomed(s, -count, value))
    ensures Marked(Doomed(s, -count, value)) == Min(count, Occurrences(s, value))
  {
    hide Doomed;
    hide Occurrences;
    hide Survivors;
    hide Marked;
    if count == 0 {
      NoneDoomed(s, value);
    } else if s == [] {
      NothingDoomed(-count, value);
    } else {
      var n := |s| - 1;
      LastStep(s, -count, value);
      assert s == s[..n] + [s[n]];
      OccurrencesSnoc(s[..n], s[n], value);
      if s[n] == value {
        RemoveLastIsPositional(s[..n], count - 1, value);
        assert -(count - 1) == -count + 1;
      } else {
        RemoveLastIsPositional(s[..n], count, value);
      }
    }
  }

  lemma NothingDoomed(count: int, value: string)
    ensures var doomed := Doomed([], count, value); Survivors<string>([], doomed) == [] && Marked(doomed) == 0
    ensures Occurrences([], value) == 0
  {
  }

  function Min(a: int, b: int): int {
    if a < b then a else b
  }

  function Abs(a: int): nat {
    if a < 0 then -a else a
  }

  lemma {:induction false} SurvivorsLength<T>(s: seq<T>, doomed: seq<bool>)
    requires |doomed| == |s|
    ensures |Survivors(s, doomed)| == |s| - Marked(doomed)
  {
    if s == [] {
    } else {
      SurvivorsLength(s[1..], doomed[1..]);
    }
  }

  /** LREM's positional specification: exactly the doomed positions disappear, every other element keeps its
      place in the order, and the number removed is the smaller of |count| and the number of matches. */
  lemma {:induction false} RemoveIsPositional(s: seq<string>, count: int, value: string)
    ensures Remove(s, count, value) == Survivors(s, Doomed(s, count, value))
    ensures |s| - |Remove(s, count, value)| == Min(Abs(count), Occurrences(s, value))
  {
    if count >= 0 {
      RemoveFirstIsPositional(s, count, value);
    } else {
      RemoveLastIsPositional(s, -count, value);
    }
    SurvivorsLength(s, Doomed(s, count, value));
  }

  /** Deleting from the back is reversing, deleting from the front and reversing again. */
  lemma RemoveDuality(s: seq<string>, count: int, value: string)
    requires count >= 0
    ensures Remove(s, -count, value) == Reverse(Remove(Reverse(s), count, value))
  {
    ReverseTwice(s);
    RemoveFirstOfReverse(s, count, value);
    ReverseTwice(RemoveLast(s, count, value));
    RemoveNone(s, value);
    RemoveNone(Reverse(s), value);
  }

  lemma RemoveNone(s: seq<string>, value: string)
    ensures RemoveFirst(s, 0, value) == RemoveLast(s, 0, value) == s
  {
  }

  lemma {:induction false} RemoveFirstOfReverse(s: seq<string>, count: nat, value: string)
    ensures RemoveFirst(Reverse(s), count, value) == Reverse(RemoveLast(s, count, value))
  {
    if s == [] || count == 0 {
    } else {
      var init, last := s[..|s| - 1], s[|s| - 1];
      assert Reverse(s)[0] == last && Reverse(s)[1..] == Reverse(init);
      RemoveFirstOfReverse(init, if last == value then count - 1 else count, value);
      if last != value {
        ReverseAppend(RemoveLast(init, count, value), [last]);
        assert Reverse([last]) == [last];
      }
    }
  }

  /** Two removals in the same direction add up. */
  lemma {:induction false} RemoveFirstAdds(s: seq<string>, a: nat, b: nat, value: string)
    ensures RemoveFirst(RemoveFirst(s, a, value), b, value) == RemoveFirst(s, a + b, value)
  {
    if s == [] || a == 0 {
    } else {
      RemoveFirstAdds(s[1..], if s[0] == value then a - 1 else a, b, value);
      if s[0] != value {
        assert ([s[0]] + RemoveFirst(s[1..], a, value))[1..] == RemoveFirst(s[1..], a, value);
      }
    }
  }

  lemma RemoveAdds(s: seq<string>, a: int, b: int, value: string)
    requires (a >= 0 && b >= 0) || (a <= 0 && b <= 0)
    ensures Remove(Remove(s, a, value), b, value) == Remove(s, a + b, value)
  {
    if a >= 0 && b >= 0 {
      RemoveFirstAdds(s, a, b, value);
    } else {
      RemoveDuality(s, -a, value);
      RemoveDuality(Remove(s, a, value), -b, value);
      RemoveDuality(s, -a - b, value);
      ReverseTwice(RemoveFirst(Reverse(s), -a, value));
      RemoveFirstAdds(Reverse(s), -a, -b, value);
    }
  }
}
