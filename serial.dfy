/** The "largest existing number plus one, or 1" rule that both models use in
    a pre-save hook to number new documents (`Employee.id`, `User.sno`). */
module Serial {

  /** The largest key (0 for no keys): what `findOne({}, {}, {sort: {key: -1}})` finds. */
  function Max(keys: seq<nat>): (m: nat)
    ensures forall k :: k in keys ==> k <= m
    ensures keys != [] ==> m in keys
  {
    if keys == [] then 0
    else
      var rest := Max(keys[1..]);
      assert forall k :: k in keys ==> k == keys[0] || k in keys[1..];
      if keys[0] >= rest then keys[0] else rest
  }

  /** The number the hook gives a document saved without one. */
  function Next(keys: seq<nat>): (n: nat)
    ensures n >= 1
    ensures forall k :: k in keys ==> k < n
    ensures keys == [] ==> n == 1
    ensures keys != [] ==> n - 1 in keys
  {
    if keys == [] then 1 else Max(keys) + 1
  }

  /** The hook itself: a falsy (absent or zero) number is replaced by `Next`,
      any other number is kept, so re-saving never renumbers a document. */
  function Assign(current: nat, keys: seq<nat>): (n: nat)
    ensures n >= 1
    ensures current != 0 ==> n == current
    ensures current == 0 ==> n !in keys && (keys == [] ==> n == 1) && (keys != [] ==> n - 1 in keys)
  {
    if current == 0 then Next(keys) else current
  }

  /** The number `Next` gives is the least one above every key. */
  lemma NextIsLeastFresh(keys: seq<nat>, n: nat)
    requires n >= 1 && forall k :: k in keys ==> k < n
    ensures Next(keys) <= n
  {
  }
}
