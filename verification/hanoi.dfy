/** The Towers of Hanoi on three stacks of disk sizes, the smallest disk
    being 1. Rods are stacks, so the top disk is the first element. */
module Hanoi {
  import opened Wrappers
  import Stacks

  datatype Game = Game(height: int, source: Stacks.Stack<int>, spare: Stacks.Stack<int>, destination: Stacks.Stack<int>)

  /** The tower of disks 1 to `height`, smallest on top. */
  function Tower(height: nat): (r: seq<int>)
    ensures |r| == height
  {
    seq(height, i => i + 1)
  }

  /** `newHanoiGame`: a height below 1 is refused; otherwise the source rod
      is filled by pushing `height` down to 1, so it holds the whole tower
      with disk 1 on top, and the other two rods are empty. */
  method NewHanoiGame(height: int) returns (r: Result<Game, string>)
    ensures r.Failure? <==> height < 1
    ensures r.Success? ==>
      && r.value.height == height
      && r.value.source.items == Tower(height)
      && Stacks.IsEmpty(r.value.spare) && Stacks.IsEmpty(r.value.destination)
  {
    if height < 1 {
      return Failure("Min Height for hanoi tower is 3");
    }
    var source := Stacks.Empty();
    var i := height;
    while i >= 1
      invariant 0 <= i <= height
      invariant source.items == seq(height - i, k => i + 1 + k)
    {
      source := Stacks.Push(source, i);
      i := i - 1;
    }
    return Success(Game(height, source, Stacks.Empty(), Stacks.Empty()));
  }

  /** Takes the top disk of `source` and puts it on `destination`. The source
      rod must hold a disk: the source dereferences what `Pop` returns. */
  function Swap(source: Stacks.Stack<int>, destination: Stacks.Stack<int>): (r: (Stacks.Stack<int>, Stacks.Stack<int>))
    requires !Stacks.IsEmpty(source)
    ensures Stacks.Pick(r.1) == Stacks.Pick(source)
    ensures Stacks.Push(r.0, source.items[0]) == source
    ensures Stacks.Pop(r.1).1 == destination
  {
    var (disk, rest) := Stacks.Pop(source);
    (rest, Stacks.Push(destination, disk.value))
  }

  /** Moves the top `numberOfDisks` disks from `source` to `destination`
      through `spare`, returning the three rods in that order. The disks
      arrive in the order they left, the rest of the source is untouched,
      and the spare rod ends as it started. At least one disk is moved (with
      0 the source recurses without end) and the source must hold them all. */
  function Move(numberOfDisks: int, source: Stacks.Stack<int>, destination: Stacks.Stack<int>, spare: Stacks.Stack<int>):
    (r: (Stacks.Stack<int>, Stacks.Stack<int>, Stacks.Stack<int>))
    requires 1 <= numberOfDisks <= |source.items|
    ensures r.0.items == source.items[numberOfDisks..]
    ensures r.1.items == source.items[..numberOfDisks] + destination.items
    ensures r.2 == spare
    decreases numberOfDisks
  {
    if numberOfDisks == 1 then
      var (s, d) := Swap(source, destination);
      assert source.items[..1] == [source.items[0]];
      (s, d, spare)
    else
      var n := numberOfDisks;
      var (source1, spare1, destination1) := Move(n - 1, source, spare, destination);
      var (source2, destination2, spare2) := Move(1, source1, destination1, spare1);
      var (spare3, destination3, source3) := Move(n - 1, spare2, destination2, source2);
      assert source.items[..n] == source.items[..n - 1] + [source.items[n - 1]];
      assert source1.items[1..] == source.items[n..];
      (source3, destination3, spare3)
  }

  /** Moves the whole tower of the game's height from the source rod to the
      destination. On a fresh game this leaves the source and spare rods
      empty and the whole tower on the destination. */
  function Solve(game: Game): (r: Game)
    requires 1 <= game.height <= |game.source.items|
    ensures r.height == game.height
    ensures r.source.items == game.source.items[game.height..]
    ensures r.destination.items == game.source.items[..game.height] + game.destination.items
    ensures r.spare == game.spare
    ensures game.source.items == Tower(game.height) && Stacks.IsEmpty(game.spare) && Stacks.IsEmpty(game.destination) ==>
      Stacks.IsEmpty(r.source) && Stacks.IsEmpty(r.spare) && r.destination.items == Tower(game.height)
  {
    var (source, destination, spare) := Move(game.height, game.source, game.destination, game.spare);
    assert game.source.items[..game.height] + [] == game.source.items[..game.height];
    Game(game.height, source, spare, destination)
  }
}
