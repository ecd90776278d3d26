/** The 16-bit fill and copy loops of the utility namespace. */
module MemUtil {
  import opened Machine

  /** Writes value into the first count cells; a non-positive count writes nothing. */
  method FastMemSet16(dest: array<u16>, value: u16, count: int)
    requires count <= dest.Length
    modifies dest
    ensures forall i :: 0 <= i < dest.Length ==>
              dest[i] == if i < count then value else old(dest[i])
  {
    var i := 0;
    while i < count
      invariant 0 <= i && (i <= count || i == 0)
      invariant forall j :: 0 <= j < dest.Length ==>
                  dest[j] == if j < i then value else old(dest[j])
    {
      dest[i] := value;
      i := i + 1;
    }
  }

  /** Copies the first count cells of src into dest, lowest index first; a
      non-positive count copies nothing. */
  method FastMemCopy16(dest: array<u16>, src: array<u16>, count: int)
    requires count <= dest.Length && count <= src.Length
    modifies dest
    ensures forall i :: 0 <= i < dest.Length ==>
              dest[i] == if i < count then old(src[i]) else old(dest[i])
  {
    var i := 0;
    while i < count
      invariant 0 <= i && (i <= count || i == 0)
      invariant forall j :: 0 <= j < dest.Length ==>
                  dest[j] == if j < i then old(src[j]) else old(dest[j])
      invariant src != dest ==> forall j :: 0 <= j < src.Length ==> src[j] == old(src[j])
    {
      dest[i] := src[i];
      i := i + 1;
    }
  }
}
