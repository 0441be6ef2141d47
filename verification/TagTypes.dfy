/** Tag-cache rows and the clock the adapters read with `Date.now()`. */
module TagTypes {
  import opened Wrappers

  /** A row of the tag table; its value is the row's `revalidatedAt`. */
  datatype Row = Row(tag: string, path: string)

  type Rows = map<Row, nat>

  /** `OriginalTagCacheWriteInput` */
  datatype WriteInput = WriteInput(tag: string, path: string, revalidatedAt: Option<nat>) {
    function RowOf(): Row { Row(tag, path) }
  }

  const SOFT_TAG_PREFIX := "_N_T_/"

  predicate IsSoft(tag: string) {
    SOFT_TAG_PREFIX <= tag
  }

  ghost predicate NoDuplicates<T>(s: seq<T>) {
    forall i, j :: 0 <= i < j < |s| ==> s[i] != s[j]
  }

  /** A clock that has moved on every time it is read. */
  class Clock {
    var now: nat

    constructor ()
      ensures now == 1
    {
      now := 1;
    }

    method DateNow() returns (t: nat)
      modifies this
      ensures old(now) < now == t
    {
      var elapsed: nat :| elapsed > 0;
      now := now + elapsed;
      t := now;
    }
  }
}
