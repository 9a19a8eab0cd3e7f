/**
 Identifiers of the pedagogical compiler. `stable_id` and `stable_hash` digests are collision-free: a digest is
 identified with its prefix and its normalized parts. `normalize_text` leaves a digest or a number as it is, and
 is an arbitrary function on free text.
 */
module Ids {
  import opened Sequences

  datatype Id = Text(text: string) | Number(n: int) | Digest(prefix: string, parts: seq<Id>)

  /**
   The text primitives the builders rely on, left open: normalization, the collapse of white space, splitting at
   " and ", the order of ids.
   */
  datatype Primitives = Primitives(normalize: string -> string, squeeze: string -> string,
                                   split: string -> seq<string>, idLe: (Id, Id) -> bool)

  function Normalized(p: Primitives, id: Id): Id {
    match id
    case Text(text) => Text(p.normalize(text))
    case _ => id
  }

  function StableId(p: Primitives, prefix: string, parts: seq<Id>): Id {
    Digest(prefix, Map(id => Normalized(p, id), parts))
  }
}
