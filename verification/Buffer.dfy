/**
 * Text written into a buffer of fixed size. A store past the end is taken as lost, and reading stops at the end;
 * C itself promises nothing there.
 */
module Buffer {

  /** snprintf into a buffer that holds n characters and the terminator. */
  function Cut(s: string, n: nat): string {
    if |s| <= n then s else s[..n]
  }

  /** The text a reader sees, and where the writer goes on: further right once something was cut. */
  datatype Buf = Buf(text: string, pos: nat)

  const Empty := Buf("", 0)

  /** buf[pos++] = c */
  function Store(b: Buf, cap: nat, c: char): Buf {
    Buf(if |b.text| == b.pos < cap then b.text + [c] else b.text, b.pos + 1)
  }

  /** pos += snprintf(buf + pos, cap - pos, s): one place is kept for the terminator. */
  function Print(b: Buf, cap: nat, s: string): Buf {
    Buf(if |b.text| != b.pos || b.pos >= cap then b.text
        else if b.pos + |s| < cap then b.text + s
        else b.text + s[..cap - 1 - b.pos],
        b.pos + |s|)
  }

  /** Of the intended text the buffer holds all while it fits with its terminator, and else a part from the front. */
  ghost predicate Holds(b: Buf, cap: nat, full: string) {
    && b.text <= full
    && (if |full| < cap then b == Buf(full, |full|) else b.pos >= cap)
  }

  lemma StoreHolds(b: Buf, cap: nat, full: string, c: char)
    requires Holds(b, cap, full)
    ensures Holds(Store(b, cap, c), cap, full + [c])
    ensures |full| < cap ==> Store(b, cap, c).text == full + [c]
    ensures |full| >= cap ==> Store(b, cap, c).text <= full
  {
  }

  lemma PrintHolds(b: Buf, cap: nat, full: string, s: string)
    requires Holds(b, cap, full)
    ensures Holds(Print(b, cap, s), cap, full + s)
    ensures |full + s| < cap ==> Print(b, cap, s).text == full + s
    ensures |full + s| >= cap && s != "" ==> |Print(b, cap, s).text| < |full + s|
  {
    var t := full + s;
    if |full| < cap <= |t| {
      assert t[..cap - 1] == full + s[..cap - 1 - |full|];
    }
  }

  lemma EmptyHolds(cap: nat)
    requires cap > 0
    ensures Holds(Empty, cap, "")
  {
  }
}
