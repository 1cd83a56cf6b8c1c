/**
 * Database rows shared by several components, reduced to the columns the
 * modelled logic reads.
 */
module Records {
  import opened Util

  /** A room (`Room`): database id, import id and seat count. */
  datatype Room = Room(id: int, xmlId: int, capacity: int)

  /** A class section (`Class`): database id, import id, student limit and optional course. */
  datatype Class = Class(id: int, xmlId: int, limit: int, offering: Option<int>)

  /** Import ids from this value on mark the placeholder instructors the generator creates. */
  const SyntheticBase := 900000

  /** `is_synthetic`: an import id in the placeholder range. */
  predicate IsSynthetic(xmlId: int) {
    xmlId >= SyntheticBase
  }

  /** The rooms with at least `limit` seats, in order. */
  function Suitable(rooms: seq<Room>, limit: int): (r: seq<Room>)
    ensures forall x :: x in r <==> x in rooms && x.capacity >= limit
  {
    if |rooms| == 0 then []
    else (if rooms[0].capacity >= limit then [rooms[0]] else []) + Suitable(rooms[1..], limit)
  }
}
