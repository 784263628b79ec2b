// The variadic print call: each argument was pushed on the stack and described by a
// tag byte; the tags are walked backwards to find the cells.

module SysPrint {

  // A tag is a byte; `tag / bit % 2 == 1` says that the bit of that weight is set.

  // Pointer 0x80, double 0x40, float 0x20, long 0x10, else int; the first set bit wins.
  function TypeWidth(tag: nat): (w: nat)
    ensures 1 <= w <= 2
  {
    if tag / 0x80 % 2 == 1 then 1
    else if tag / 0x40 % 2 == 1 then 2
    else if tag / 0x20 % 2 == 1 then 1
    else if tag / 0x10 % 2 == 1 then 2
    else 1
  }

  // PRINT_VAL_SIZE: the low nibble is a size in bytes.
  function NibbleWidth(tag: nat): nat {
    var words := tag % 16 / 4;
    if words == 0 then 0 else if words == 1 then 1 else if words == 2 then 2 else 3
  }

  function TypeWidths(tags: seq<nat>): nat {
    if tags == [] then 0 else TypeWidth(tags[0]) + TypeWidths(tags[1..])
  }

  function NibbleWidths(tags: seq<nat>): nat {
    if tags == [] then 0 else NibbleWidth(tags[0]) + NibbleWidths(tags[1..])
  }

  // What `sp` is lowered by. With no tag or one, a single format string is printed.
  function Popped(tags: seq<nat>): nat { if |tags| <= 1 then 1 else NibbleWidths(tags) }

  function Pushed(values: seq<seq<int>>): seq<int> {
    if values == [] then [] else values[0] + Pushed(values[1..])
  }

  // Each value takes the cells its tag's type bits say.
  predicate Tagged(tags: seq<nat>, values: seq<seq<int>>) {
    |tags| == |values| && forall i :: 0 <= i < |tags| ==> |values[i]| == TypeWidth(tags[i])
  }

  lemma {:induction false} PushedWidth(tags: seq<nat>, values: seq<seq<int>>)
    requires Tagged(tags, values)
    ensures |Pushed(values)| == TypeWidths(tags)
  {
    if tags != [] { PushedWidth(tags[1..], values[1..]); }
  }

  // The arguments from number k on have been read: `sum` cells of them in all.
  ghost predicate Walked(tags: seq<nat>, k: int, argVal: seq<seq<int>>, cells: seq<int>, sp: int, sum: nat) {
    0 <= k <= |tags| && sum <= sp + 1 <= |cells|
    && Tagged(tags[k..], argVal) && sum == TypeWidths(tags[k..]) && Pushed(argVal) == cells[sp + 1 - sum..sp + 1]
  }

  lemma WalkBegins(tags: seq<nat>, cells: seq<int>, sp: int)
    requires 0 <= sp + 1 <= |cells|
    ensures Walked(tags, |tags|, [], cells, sp, 0)
  {
  }

  lemma WalkFits(tags: seq<nat>, k: int, argVal: seq<seq<int>>, cells: seq<int>, sp: int, sum: nat)
    requires Walked(tags, k + 1, argVal, cells, sp, sum) && k >= 0 && TypeWidths(tags) <= sp + 1
    ensures k < |tags| && sum + TypeWidth(tags[k]) <= sp + 1
  {
    SuffixFits(tags, k);
  }

  // One step of the walk.
  lemma WalkGoesOn(tags: seq<nat>, k: int, argVal: seq<seq<int>>, value: seq<int>, cells: seq<int>, sp: int,
                   counted: nat, sum: nat)
    requires Walked(tags, k + 1, argVal, cells, sp, counted) && k >= 0
    requires sum == counted + TypeWidth(tags[k]) <= sp + 1 && |value| == TypeWidth(tags[k])
    requires value == cells[sp + 1 - sum..sp + 1 - counted]
    ensures Walked(tags, k, [value] + argVal, cells, sp, sum)
  {
    hide TypeWidth, TypeWidths;
    SuffixFits(tags, k);
    assert ([value] + argVal)[1..] == argVal;
    assert Pushed([value] + argVal) == value + Pushed(argVal);
    forall i | 0 <= i < |tags[k..]|
      ensures |([value] + argVal)[i]| == TypeWidth(tags[k..][i])
    {
      if i > 0 {
        assert ([value] + argVal)[i] == argVal[i - 1] && tags[k..][i] == tags[k + 1..][i - 1];
      }
    }
  }

  lemma WalkEnds(tags: seq<nat>, argVal: seq<seq<int>>, cells: seq<int>, sp: int, sum: nat)
    requires Walked(tags, 0, argVal, cells, sp, sum)
    ensures Tagged(tags, argVal) && sum == TypeWidths(tags) && Pushed(argVal) == cells[sp + 1 - sum..sp + 1]
  {
    assert tags[0..] == tags;
  }

  // The value a tag describes, below the cells already counted.
  method ReadArgument(sysArgFlags: nat, stack: array<int>, sp: int, counted: nat)
    returns (value: seq<int>, valueSizeSum: nat)
    requires counted + TypeWidth(sysArgFlags) <= sp + 1 <= stack.Length
    ensures valueSizeSum == counted + TypeWidth(sysArgFlags) && |value| == TypeWidth(sysArgFlags)
    ensures value == stack[..][sp + 1 - valueSizeSum..sp + 1 - counted]
  {
    if sysArgFlags / 0x80 % 2 == 1 {
      value := [stack[sp - counted]];
      valueSizeSum := counted + 1;
    } else if sysArgFlags / 0x40 % 2 == 1 {
      value := [stack[sp - counted - 1], stack[sp - counted]];
      valueSizeSum := counted + 2;
    } else if sysArgFlags / 0x20 % 2 == 1 {
      value := [stack[sp - counted]];
      valueSizeSum := counted + 1;
    } else if sysArgFlags / 0x10 % 2 == 1 {
      value := [stack[sp - counted - 1], stack[sp - counted]];
      valueSizeSum := counted + 2;
    } else {
      value := [stack[sp - counted]];
      valueSizeSum := counted + 1;
    }
  }

  // The backward walk, and what the stack pointer is afterwards. The walk begins at the
  // last argument with nothing counted, so it needs no knowledge of what was pushed.
  method SysPrint(sysArgs: seq<nat>, stack: array<int>, sp: int) returns (argVal: seq<seq<int>>, lowered: int)
    requires TypeWidths(sysArgs) <= sp + 1 <= stack.Length
    ensures Tagged(sysArgs, argVal)
    ensures Pushed(argVal) == stack[..][sp + 1 - TypeWidths(sysArgs)..sp + 1]
    ensures lowered == sp - Popped(sysArgs)
  {
    hide Walked, Tagged, Pushed, TypeWidth, TypeWidths, Popped;
    argVal := [];
    var valueSizeSum := 0;
    var i := |sysArgs| - 1;
    WalkBegins(sysArgs, stack[..], sp);
    while i >= 0
      invariant -1 <= i < |sysArgs|
      invariant Walked(sysArgs, i + 1, argVal, stack[..], sp, valueSizeSum)
    {
      WalkFits(sysArgs, i, argVal, stack[..], sp, valueSizeSum);
      var value, sum := ReadArgument(sysArgs[i], stack, sp, valueSizeSum);
      WalkGoesOn(sysArgs, i, argVal, value, stack[..], sp, valueSizeSum, sum);
      valueSizeSum := sum;
      argVal := [value] + argVal;
      i := i - 1;
    }
    WalkEnds(sysArgs, argVal, stack[..], sp, valueSizeSum);
    lowered := Lower(sysArgs, sp);
  }

  // The switch that follows the walk: by then only the size nibbles count.
  method Lower(sysArgs: seq<nat>, sp: int) returns (lowered: int)
    ensures lowered == sp - Popped(sysArgs)
  {
    if |sysArgs| <= 1 {
      return sp - 1;
    }
    return sp - NibbleWidths(sysArgs);
  }

  lemma {:induction false} SuffixFits(tags: seq<nat>, i: nat)
    requires i < |tags|
    ensures TypeWidths(tags[i..]) == TypeWidth(tags[i]) + TypeWidths(tags[i + 1..]) <= TypeWidths(tags)
  {
    assert tags[i..][1..] == tags[i + 1..];
    if i > 0 {
      SuffixFits(tags[1..], i - 1);
      assert tags[1..][i - 1..] == tags[i..];
    } else {
      assert tags[0..] == tags;
    }
  }

  // Lists of values with the same tags that take the same cells are the same list, so
  // the walk returns every argument as it was pushed.
  lemma {:induction false} PushedIsUnique(tags: seq<nat>, values: seq<seq<int>>, others: seq<seq<int>>)
    requires Tagged(tags, values) && Tagged(tags, others) && Pushed(values) == Pushed(others)
    ensures values == others
  {
    if tags != [] {
      assert values[0] == Pushed(values)[..TypeWidth(tags[0])] == others[0];
      assert Pushed(values[1..]) == Pushed(values)[TypeWidth(tags[0])..] == Pushed(others[1..]);
      PushedIsUnique(tags[1..], values[1..], others[1..]);
      assert values == [values[0]] + values[1..] && others == [others[0]] + others[1..];
    }
  }

  predicate SizeMatches(tag: nat) { NibbleWidth(tag) == TypeWidth(tag) }

  // The stack height before the arguments is restored when the size nibbles match the
  // type bits, and otherwise only if their errors cancel out.
  lemma {:induction false} HeightRestored(tags: seq<nat>, below: seq<int>, values: seq<seq<int>>)
    requires Tagged(tags, values) && 2 <= |tags|
    ensures var sp := |below + Pushed(values)| - 1;
            (sp - Popped(tags) == |below| - 1 <==> NibbleWidths(tags) == TypeWidths(tags))
            && ((forall i :: 0 <= i < |tags| ==> SizeMatches(tags[i])) ==> sp - Popped(tags) == |below| - 1)
  {
    PushedWidth(tags, values);
    if forall i :: 0 <= i < |tags| ==> SizeMatches(tags[i]) { MatchingSums(tags); }
  }

  lemma {:induction false} MatchingSums(tags: seq<nat>)
    requires forall i :: 0 <= i < |tags| ==> SizeMatches(tags[i])
    ensures NibbleWidths(tags) == TypeWidths(tags)
  {
    if tags != [] {
      assert SizeMatches(tags[0]);
      MatchingSums(tags[1..]);
    }
  }

  // A single argument is taken for a format string whatever its tag: the height is
  // restored exactly when it takes one cell. A long leaves one of its two behind, even
  // when its size nibble says 8.
  lemma SingleArgument(tag: nat, below: seq<int>, value: seq<int>)
    requires Tagged([tag], [value])
    ensures var sp := |below + Pushed([value])| - 1;
            sp - Popped([tag]) == |below| - 1 <==> TypeWidth(tag) == 1
    ensures SizeMatches(0x18) && TypeWidth(0x18) == 2
  {
    PushedWidth([tag], [value]);
  }
}
