/** Small shared vocabulary: options, typed values and tree paths. */
module Base {

  datatype Option<+T> = None | Some(value: T)

  /** A typed value, known only by its type tag and its canonical text. */
  datatype Value = Value(typ: string, text: string)

  /** Names from an entry downwards; key levels contribute their key value. */
  type Path = seq<string>

  const MAX_PRIO: int := 0x7fff_ffff
  const DEFAULT_PRIO: int := MAX_PRIO - 90
  const RUNNING_PRIO: int := MAX_PRIO - 100
  const RUNNING := "running"
  const DEFAULT := "default"

  /** Every owner but the two reserved ones is an intent. */
  predicate IsIntent(owner: string) {
    owner != RUNNING && owner != DEFAULT
  }

  /** One level up; the root stays. */
  function Up(p: Path): Path {
    if p == [] then [] else p[..|p| - 1]
  }
}
