/**
 * The keyboard controller: arrow keys buffer the next direction, refusing the
 * reverse of the direction the snake is committed to; several presses between
 * two ticks overwrite one another rather than queue.
 */
module Controls {

  import opened Grid

  /** The keys the handler distinguishes; every other key is `Other`. */
  datatype Key = ArrowUp | ArrowDown | ArrowLeft | ArrowRight | Space | Other
  {
    predicate IsArrow()
    {
      !Space? && !Other?
    }

    function Heading(): (d: Direction)
      requires IsArrow()
    {
      match this
      case ArrowUp => Up
      case ArrowDown => Down
      case ArrowLeft => Left
      case ArrowRight => Right
    }
  }

  /** An arrow key whose heading is not the reverse of the committed direction. */
  predicate Accepted(key: Key, committed: Direction)
  {
    key.IsArrow() && committed != Opposite(key.Heading())
  }

  /** The buffered direction after one key press. */
  function Steer(key: Key, committed: Direction, pending: Direction): (r: Direction)
    ensures r == pending || (key.IsArrow() && r == key.Heading() && r != Opposite(committed))
    ensures !key.IsArrow() ==> r == pending
  {
    if Accepted(key, committed) then
      OppositeInvolutive(committed);
      key.Heading()
    else pending
  }

  /** The buffered direction after a run of key presses, oldest first, between two ticks. */
  function SteerAll(keys: seq<Key>, committed: Direction, pending: Direction): (r: Direction)
  {
    if keys == [] then pending
    else Steer(keys[|keys| - 1], committed, SteerAll(keys[..|keys| - 1], committed, pending))
  }

  /** However many keys arrive between two ticks, the buffered direction never reverses the committed one. */
  lemma {:induction false} SteerNeverReverses(keys: seq<Key>, committed: Direction, pending: Direction)
    requires pending != Opposite(committed)
    ensures SteerAll(keys, committed, pending) != Opposite(committed)
  {
    if keys != [] {
      SteerNeverReverses(keys[..|keys| - 1], committed, pending);
    }
  }

  /**
   * Input is buffered, not queued: the buffered direction is the heading of
   * the last accepted key, or the old buffered one when no key was accepted.
   */
  lemma {:induction false} LastAcceptedKeyWins(keys: seq<Key>, committed: Direction, pending: Direction)
    ensures (forall i :: 0 <= i < |keys| ==> !Accepted(keys[i], committed))
              ==> SteerAll(keys, committed, pending) == pending
    ensures forall i :: 0 <= i < |keys| && Accepted(keys[i], committed)
              && (forall j :: i < j < |keys| ==> !Accepted(keys[j], committed))
              ==> SteerAll(keys, committed, pending) == keys[i].Heading()
  {
    if keys != [] {
      var init := keys[..|keys| - 1];
      LastAcceptedKeyWins(init, committed, pending);
      if !Accepted(keys[|keys| - 1], committed) {
        forall i | 0 <= i < |keys| - 1 && Accepted(keys[i], committed)
            && (forall j :: i < j < |keys| ==> !Accepted(keys[j], committed))
          ensures SteerAll(keys, committed, pending) == keys[i].Heading()
        {
          assert keys[i] == init[i];
          assert forall j :: i < j < |init| ==> init[j] == keys[j];
        }
      }
    }
  }

  /**
   * The reversal check looks at the committed direction only: with RIGHT
   * committed, UP then DOWN before the next tick leaves DOWN buffered.
   */
  lemma UpThenDownWhileMovingRight()
    ensures SteerAll([ArrowUp, ArrowDown], Right, Right) == Down
  {
    assert [ArrowUp, ArrowDown][..1] == [ArrowUp];
    assert [ArrowUp][..0] == [];
  }
}
