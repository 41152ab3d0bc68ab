/** Small helpers shared by the models. */
module Common {
  datatype Option<T> = None | Some(value: T)

  ghost predicate NoRepeats(s: seq<nat>) {
    forall i, j :: 0 <= i < j < |s| ==> s[i] != s[j]
  }

  /** The sequence with `field` in place of what stands from `at` on. */
  function Patched<T>(s: seq<T>, at: nat, field: seq<T>): seq<T>
    requires at + |field| <= |s|
  {
    s[..at] + field + s[at + |field|..]
  }

  method Write<T>(buf: array<T>, at: nat, field: seq<T>)
    requires at + |field| <= buf.Length
    modifies buf
    ensures buf[..] == Patched(old(buf[..]), at, field)
  {
    for i := 0 to |field|
      invariant forall j :: 0 <= j < at ==> buf[j] == old(buf[j])
      invariant forall j :: 0 <= j < i ==> buf[at + j] == field[j]
      invariant forall j :: at + i <= j < buf.Length ==> buf[j] == old(buf[j])
    {
      buf[at + i] := field[i];
    }
  }
}
