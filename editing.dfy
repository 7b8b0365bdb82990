/** The mine/place rule of the mousedown handler in main.js, on the block
    table. The raycast itself is not modelled: its outcome arrives as an
    Aim. */
module Editing {
  import opened Options
  import opened Blocks
  import opened Store

  /** The farthest hit, camera to hit point, that mining or placing acts on. */
  const Reach: real := 6.0

  /** A resolved raycast hit: the cell of the mesh that was hit, the cell
      next to the hit face (where a block would be placed), and the
      distance from the camera to the hit point. */
  datatype Aim = Aim(hitCell: Cell, target: Cell, distance: real)

  /** The block table after a mouse button press. Nothing happens without
      pointer lock, without a hit or beyond reach; button 0 mines the hit
      cell, button 2 places the selected kind into the target cell when
      that cell is empty, every other button does nothing. */
  function Edit(t: Table, cur: Block, locked: bool, button: int, aim: Option<Aim>): Table
  {
    if !locked || aim.None? then t
    else if aim.value.distance > Reach then t
    else if button == 0 then t - {aim.value.hitCell}
    else if button == 2 then (if aim.value.target in t then t else t[aim.value.target := cur])
    else t
  }

  /** A press that does not act: no pointer lock, no hit, a hit farther
      than the reach, or a button other than 0 and 2. */
  predicate Ignored(locked: bool, button: int, aim: Option<Aim>)
  {
    !locked || aim.None? || aim.value.distance > Reach || (button != 0 && button != 2)
  }

  /** An ignored press changes nothing. */
  lemma EditIgnored(t: Table, cur: Block, locked: bool, button: int, aim: Option<Aim>)
    ensures Ignored(locked, button, aim) ==> Edit(t, cur, locked, button, aim) == t
  {
  }

  /** Mining empties the hit cell and changes no other cell. */
  lemma MineSpec(t: Table, cur: Block, aim: Aim, c: Cell)
    requires aim.distance <= Reach
    ensures Lookup(Edit(t, cur, true, 0, Some(aim)), aim.hitCell).None?
    ensures c != aim.hitCell ==> Lookup(Edit(t, cur, true, 0, Some(aim)), c) == Lookup(t, c)
  {
  }

  /** Placing fills an empty target cell with the selected kind, leaves an
      occupied target alone, and changes no other cell. */
  lemma PlaceSpec(t: Table, cur: Block, aim: Aim, c: Cell)
    requires aim.distance <= Reach
    ensures aim.target !in t ==> Lookup(Edit(t, cur, true, 2, Some(aim)), aim.target) == Some(cur)
    ensures aim.target in t ==> Edit(t, cur, true, 2, Some(aim)) == t
    ensures c != aim.target ==> Lookup(Edit(t, cur, true, 2, Some(aim)), c) == Lookup(t, c)
  {
  }

  /** Only mining can take a block away or change its kind: any other
      press keeps every existing block as it was. And every press changes
      at most one cell: the hit cell or the target cell. */
  lemma EditNeverOverwrites(t: Table, cur: Block, locked: bool, button: int, aim: Option<Aim>, c: Cell)
    ensures button != 0 && c in t ==> Lookup(Edit(t, cur, locked, button, aim), c) == Some(t[c])
    ensures Lookup(Edit(t, cur, locked, button, aim), c) != Lookup(t, c) ==>
      aim.Some? && (c == aim.value.hitCell || c == aim.value.target)
  {
  }
}
