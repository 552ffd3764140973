/** Reading a CPIO "newc" archive, for every byte string, and the archive that a list of files makes. */
module Cpio {
  import opened Common
  import opened Bytes

  const HEADER: nat := 110
  const FILESIZE_AT: nat := 54
  const NAMESIZE_AT: nat := 94
  const MAGIC: seq<Byte> := [0x30, 0x37, 0x30, 0x37, 0x30, 0x31]
  const TRAILER: seq<Byte> := [0x54, 0x52, 0x41, 0x49, 0x4C, 0x45, 0x52, 0x21, 0x21, 0x21]

  /** Where an entry's name and data are in the archive. */
  datatype Entry = Entry(nameAt: nat, nameLen: nat, dataAt: nat, dataLen: nat)

  datatype Meta = Meta(ino: nat, mode: nat, uid: nat, gid: nat, nlink: nat, mtime: nat)

  // ------------------------------------------------------------ numbers

  predicate Quad(n: nat) { n % 4 == 0 }

  function Align4(n: nat): (r: nat)
    ensures n <= r < n + 4 && Quad(r)
  {
    (n + 3) / 4 * 4
  }

  lemma Align4Shift(off: nat, n: nat)
    requires Quad(off)
    ensures Align4(off + n) == off + Align4(n)
  {}

  lemma QuadSum(m: nat, n: nat)
    requires Quad(m) && Quad(n)
    ensures Quad(m + n)
  {}

  predicate IsDigit(b: Byte) { 0x30 <= b <= 0x39 || 0x61 <= b <= 0x66 || 0x41 <= b <= 0x46 }

  function DigitValue(b: Byte): (d: nat)
    requires IsDigit(b)
    ensures d < 16
  {
    if b <= 0x39 then b - 0x30 else if b <= 0x46 then b - 0x41 + 10 else b - 0x61 + 10
  }

  /** The number that a string of hexadecimal digits denotes, 0 if one of them is none. */
  function HexValue(s: seq<Byte>): nat {
    if forall i :: 0 <= i < |s| ==> IsDigit(s[i]) then DigitsValue(s) else 0
  }

  function DigitsValue(s: seq<Byte>): nat
    requires forall i :: 0 <= i < |s| ==> IsDigit(s[i])
  {
    if s == [] then 0 else DigitsValue(s[..|s| - 1]) * 16 + DigitValue(s[|s| - 1])
  }

  /** The same digits with capital letters. */
  function Capitals(s: seq<Byte>): (r: seq<Byte>)
    ensures |r| == |s| && forall i :: 0 <= i < |s| ==> r[i] == if 0x61 <= s[i] <= 0x66 then s[i] - 0x20 else s[i]
  {
    seq<Byte>(|s|, i requires 0 <= i < |s| => if 0x61 <= s[i] <= 0x66 then s[i] - 0x20 else s[i])
  }

  /** Capital and small letters denote the same number. */
  lemma {:induction false} EitherCase(s: seq<Byte>)
    requires forall i :: 0 <= i < |s| ==> IsDigit(s[i])
    ensures (forall i :: 0 <= i < |s| ==> IsDigit(Capitals(s)[i])) && DigitsValue(Capitals(s)) == DigitsValue(s)
  {
    if s != [] {
      var n := |s| - 1;
      EitherCase(s[..n]);
      assert Capitals(s)[..n] == Capitals(s[..n]);
    }
  }

  /** So they do in every field. */
  lemma FieldEitherCase(s: seq<Byte>)
    ensures HexValue(Capitals(s)) == HexValue(s)
  {
    if forall i :: 0 <= i < |s| ==> IsDigit(s[i]) {
      EitherCase(s);
    } else {
      var i :| 0 <= i < |s| && !IsDigit(s[i]);
      assert !IsDigit(Capitals(s)[i]);
    }
  }

  method ParseHex8(s: seq<Byte>, at: nat) returns (val: nat)
    requires at + 8 <= |s|
    ensures val == HexValue(s[at..at + 8])
  {
    var f := s[at..at + 8];
    val := 0;
    var i := 0;
    while i < 8
      invariant i <= 8 && forall k :: 0 <= k < i ==> IsDigit(f[k])
      invariant val == DigitsValue(f[..i])
    {
      if !IsDigit(f[i]) {
        return 0;
      }
      assert f[..i + 1][..i] == f[..i];
      val := val * 16 + DigitValue(f[i]);
      i := i + 1;
    }
    assert f[..8] == f;
  }

  // ------------------------------------------------------------ one entry

  function Field(s: seq<Byte>, off: nat, at: nat): nat
    requires off + at + 8 <= |s|
  {
    HexValue(s[off + at..off + at + 8])
  }

  /** A header starts at the offset, and the name it announces is in the archive. */
  predicate HasName(s: seq<Byte>, off: nat) {
    off + HEADER <= |s| && s[off..off + 6] == MAGIC && off + HEADER + Field(s, off, NAMESIZE_AT) <= |s|
  }

  /** The name's length, without one trailing NUL. */
  function NameLen(s: seq<Byte>, off: nat): (n: nat)
    requires HasName(s, off)
    ensures off + HEADER + n <= |s|
  {
    var n := Field(s, off, NAMESIZE_AT);
    if 0 < n && s[off + HEADER + n - 1] == 0 then n - 1 else n
  }

  function NameAt(s: seq<Byte>, off: nat): seq<Byte>
    requires HasName(s, off)
  {
    s[off + HEADER..off + HEADER + NameLen(s, off)]
  }

  function DataAt(s: seq<Byte>, off: nat): nat
    requires HasName(s, off)
  {
    Align4(off + HEADER + Field(s, off, NAMESIZE_AT))
  }

  function DataEnd(s: seq<Byte>, off: nat): nat
    requires HasName(s, off)
  {
    DataAt(s, off) + Field(s, off, FILESIZE_AT)
  }

  /** There is an entry at the offset, and it is not the trailer. */
  predicate HasEntry(s: seq<Byte>, off: nat) {
    HasName(s, off) && NameAt(s, off) != TRAILER && DataEnd(s, off) <= |s|
  }

  function EntryAt(s: seq<Byte>, off: nat): (e: Entry)
    requires HasEntry(s, off)
    ensures e.nameAt + e.nameLen <= |s| && e.dataAt + e.dataLen <= |s|
  {
    Entry(off + HEADER, NameLen(s, off), DataAt(s, off), Field(s, off, FILESIZE_AT))
  }

  function MetaAt(s: seq<Byte>, off: nat): Meta
    requires off + HEADER <= |s|
  {
    Meta(Field(s, off, 6), Field(s, off, 14), Field(s, off, 22), Field(s, off, 30), Field(s, off, 38), Field(s, off, 46))
  }

  /** Where the entry after the one at the offset starts: at least a header further on. */
  function NextAt(s: seq<Byte>, off: nat): (next: nat)
    requires HasName(s, off)
    ensures off + HEADER <= next && Quad(next)
  {
    Align4(DataEnd(s, off))
  }

  /** The offsets of the entries that iteration from an offset goes through. */
  ghost function Offsets(s: seq<Byte>, off: nat): (os: seq<nat>)
    ensures forall k :: 0 <= k < |os| ==> off <= os[k] && HasEntry(s, os[k])
    ensures forall k :: 0 <= k < |os| - 1 ==> os[k] + HEADER <= os[k + 1]
    decreases if off <= |s| then |s| - off else 0
  {
    if HasEntry(s, off) then [off] + Offsets(s, NextAt(s, off)) else []
  }

  /** The newc format: a header of 110 bytes that starts with "070701" and has the sizes of the data and of the name in
      hexadecimal at 54 and 94, then the name, then, at the next multiple of four, the data; then the next header, at
      a multiple of four again.  An entry is there exactly if all of it is and its name is not "TRAILER!!!". */
  lemma Format(s: seq<Byte>, off: nat)
    ensures HasEntry(s, off) <==>
            && off + 110 <= |s| && s[off..off + 6] == [0x30, 0x37, 0x30, 0x37, 0x30, 0x31]
            && off + 110 + HexValue(s[off + 94..off + 102]) <= |s|
            && !Named(s, off, [0x54, 0x52, 0x41, 0x49, 0x4C, 0x45, 0x52, 0x21, 0x21, 0x21])
            && Up4(off + 110 + HexValue(s[off + 94..off + 102])) + HexValue(s[off + 54..off + 62]) <= |s|
    ensures HasEntry(s, off) ==>
              var e, n := EntryAt(s, off), HexValue(s[off + 94..off + 102]);
              && e.nameAt == off + 110 && Named(s, off, s[e.nameAt..e.nameAt + e.nameLen])
              && e.dataAt == Up4(off + 110 + n) && e.dataLen == HexValue(s[off + 54..off + 62])
              && NextAt(s, off) == Up4(e.dataAt + e.dataLen)
  {
    if HasName(s, off) {
      NamedIff(s, off, TRAILER);
      NamedIff(s, off, NameAt(s, off));
      Up4Is(off + 110 + HexValue(s[off + 94..off + 102]));
      Up4Is(DataEnd(s, off));
    }
    hide HexValue, Align4, Quad, Up4, Named;
  }

  lemma Up4Is(n: nat)
    ensures Align4(n) == Up4(n)
  {}

  lemma NamedIff(s: seq<Byte>, off: nat, name: seq<Byte>)
    requires HasName(s, off)
    ensures Named(s, off, name) <==> NameAt(s, off) == name
  {
    hide HexValue;
    var field := s[off + 110..off + 110 + HexValue(s[off + 94..off + 102])];
    if field != [] && field[|field| - 1] == 0 {
      assert field == NameAt(s, off) + [0];
      if field == name + [0] { assert name == field[..|field| - 1]; }
    }
  }

  /** The least multiple of four that is not less. */
  function Up4(n: nat): nat { if n % 4 == 0 then n else n + (4 - n % 4) }

  /** The name in the archive is the given one, with or without a NUL behind it. */
  predicate Named(s: seq<Byte>, off: nat, name: seq<Byte>)
    requires off + 110 <= |s| && off + 110 + HexValue(s[off + 94..off + 102]) <= |s|
  {
    var field := s[off + 110..off + 110 + HexValue(s[off + 94..off + 102])];
    if field != [] && field[|field| - 1] == 0 then field == name + [0] else field == name
  }

  /** Where the iteration from an offset ends: behind its last entry. */
  ghost function Stop(s: seq<Byte>, off: nat): (e: nat)
    ensures off <= e && !HasEntry(s, e)
    ensures Offsets(s, off) == [] <==> e == off
    ensures Offsets(s, off) != [] ==> e == NextAt(s, Offsets(s, off)[|Offsets(s, off)| - 1])
    decreases if off <= |s| then |s| - off else 0
  {
    if HasEntry(s, off) then Stop(s, NextAt(s, off)) else off
  }

  // ------------------------------------------------------------ reading

  method CheckMagic(s: seq<Byte>, at: nat) returns (yes: bool)
    requires at + 6 <= |s|
    ensures yes <==> s[at..at + 6] == MAGIC
  {
    var h := s[at..at + 6];
    yes := h[0] == 0x30 && h[1] == 0x37 && h[2] == 0x30 && h[3] == 0x37 && h[4] == 0x30 && h[5] == 0x31;
    if yes { assert h == MAGIC; }
  }

  method IsTrailer(s: seq<Byte>, at: nat, n: nat) returns (yes: bool)
    requires at + n <= |s|
    ensures yes <==> s[at..at + n] == TRAILER
  {
    if n != 10 {
      return false;
    }
    yes := SameBytes(s, at, n, TRAILER);
  }

  method SameBytes(s: seq<Byte>, at: nat, n: nat, name: seq<Byte>) returns (same: bool)
    requires at + n <= |s| && |name| == n
    ensures same <==> s[at..at + n] == name
  {
    var i := 0;
    while i < n
      invariant i <= n && forall k :: 0 <= k < i ==> s[at + k] == name[k]
    {
      if s[at + i] != name[i] {
        assert s[at..at + n][i] != name[i];
        return false;
      }
      i := i + 1;
    }
    same := true;
  }

  // Each reader has its own copy of the header checks; what they agree on is proved for each.

  /** The entry at an offset, and the offset after it. */
  method Next(s: seq<Byte>, off: nat) returns (r: Option<Entry>, next: nat)
    ensures r.Some? <==> HasEntry(s, off)
    ensures r.Some? ==> r.value == EntryAt(s, off) && next == NextAt(s, off)
    ensures r.None? ==> next == off
  {
    hide Quad, HexValue, Align4;
    r, next := None, off;
    if off + HEADER > |s| {
      return;
    }
    var magic := CheckMagic(s, off);
    if !magic {
      return;
    }
    var namesize := ParseHex8(s, off + NAMESIZE_AT);
    var filesize := ParseHex8(s, off + FILESIZE_AT);
    var nameAt := off + HEADER;
    if nameAt + namesize > |s| {
      return;
    }
    var nameLen := namesize;
    if nameLen > 0 && s[nameAt + nameLen - 1] == 0 {
      nameLen := nameLen - 1;
    }
    var trailer := IsTrailer(s, nameAt, nameLen);
    if trailer {
      return;
    }
    var dataAt := Align4(off + HEADER + namesize);
    var dataEnd := dataAt + filesize;
    if dataEnd > |s| {
      return;
    }
    r := Some(Entry(nameAt, nameLen, dataAt, filesize));
    next := Align4(dataEnd);
  }

  /** The same with the other fields of the header. */
  method NextExt(s: seq<Byte>, off: nat) returns (r: Option<(Entry, Meta)>, next: nat)
    ensures r.Some? <==> HasEntry(s, off)
    ensures r.Some? ==> r.value.0 == EntryAt(s, off) && r.value.1 == MetaAt(s, off) && next == NextAt(s, off)
    ensures r.None? ==> next == off
  {
    hide Quad, HexValue, Align4;
    r, next := None, off;
    if off + HEADER > |s| {
      return;
    }
    var magic := CheckMagic(s, off);
    if !magic {
      return;
    }
    var namesize := ParseHex8(s, off + NAMESIZE_AT);
    var filesize := ParseHex8(s, off + FILESIZE_AT);
    var nameAt := off + HEADER;
    if nameAt + namesize > |s| {
      return;
    }
    var nameLen := namesize;
    if nameLen > 0 && s[nameAt + nameLen - 1] == 0 {
      nameLen := nameLen - 1;
    }
    var trailer := IsTrailer(s, nameAt, nameLen);
    if trailer {
      return;
    }
    var dataAt := Align4(off + HEADER + namesize);
    var dataEnd := dataAt + filesize;
    if dataEnd > |s| {
      return;
    }
    var ino := ParseHex8(s, off + 6);
    var mode := ParseHex8(s, off + 14);
    var uid := ParseHex8(s, off + 22);
    var gid := ParseHex8(s, off + 30);
    var nlink := ParseHex8(s, off + 38);
    var mtime := ParseHex8(s, off + 46);
    r := Some((Entry(nameAt, nameLen, dataAt, filesize), Meta(ino, mode, uid, gid, nlink, mtime)));
    next := Align4(dataEnd);
  }

  /** k is the first entry of the iteration that has the name. */
  ghost predicate IsFirst(s: seq<Byte>, name: seq<Byte>, k: nat) {
    var os := Offsets(s, 0);
    k < |os| && NameAt(s, os[k]) == name && forall j :: 0 <= j < k ==> NameAt(s, os[j]) != name
  }

  ghost predicate NoneNamed(s: seq<Byte>, name: seq<Byte>) {
    forall j :: 0 <= j < |Offsets(s, 0)| ==> NameAt(s, Offsets(s, 0)[j]) != name
  }

  /** What one round of a search comes to. */
  datatype Round<T> = End | Found(value: T) | Onward(next: nat)

  /** One round of the search by name. */
  method FindStep(s: seq<Byte>, off: nat, name: seq<Byte>) returns (r: Round<Entry>)
    ensures r.End? <==> !HasEntry(s, off)
    ensures r.Found? <==> HasEntry(s, off) && NameAt(s, off) == name
    ensures r.Found? ==> r.value == EntryAt(s, off)
    ensures r.Onward? ==> r.next == NextAt(s, off)
  {
    hide Quad, HexValue, Align4;
    r := End;
    if off + HEADER > |s| {
      return;
    }
    var magic := CheckMagic(s, off);
    if !magic {
      return;
    }
    var namesize := ParseHex8(s, off + NAMESIZE_AT);
    var filesize := ParseHex8(s, off + FILESIZE_AT);
    var nameAt := off + HEADER;
    if nameAt + namesize > |s| {
      return;
    }
    var nameLen := namesize;
    if nameLen > 0 && s[nameAt + nameLen - 1] == 0 {
      nameLen := nameLen - 1;
    }
    var trailer := IsTrailer(s, nameAt, nameLen);
    if trailer {
      return;
    }
    var dataAt := Align4(off + HEADER + namesize);
    var dataEnd := dataAt + filesize;
    if dataEnd > |s| {
      return;
    }
    if nameLen == |name| {
      var same := SameBytes(s, nameAt, nameLen, name);
      if same {
        return Found(Entry(nameAt, nameLen, dataAt, filesize));
      }
    }
    r := Onward(Align4(dataEnd));
  }

  /** One round of the search by name that also reads the other fields of the header. */
  method FindExtStep(s: seq<Byte>, off: nat, name: seq<Byte>) returns (r: Round<(Entry, Meta)>)
    ensures r.End? <==> !HasEntry(s, off)
    ensures r.Found? <==> HasEntry(s, off) && NameAt(s, off) == name
    ensures r.Found? ==> r.value == (EntryAt(s, off), MetaAt(s, off))
    ensures r.Onward? ==> r.next == NextAt(s, off)
  {
    hide Quad, HexValue, Align4;
    r := End;
    if off + HEADER > |s| {
      return;
    }
    var magic := CheckMagic(s, off);
    if !magic {
      return;
    }
    var namesize := ParseHex8(s, off + NAMESIZE_AT);
    var filesize := ParseHex8(s, off + FILESIZE_AT);
    var nameAt := off + HEADER;
    if nameAt + namesize > |s| {
      return;
    }
    var nameLen := namesize;
    if nameLen > 0 && s[nameAt + nameLen - 1] == 0 {
      nameLen := nameLen - 1;
    }
    var trailer := IsTrailer(s, nameAt, nameLen);
    if trailer {
      return;
    }
    var dataAt := Align4(off + HEADER + namesize);
    var dataEnd := dataAt + filesize;
    if dataEnd > |s| {
      return;
    }
    if nameLen == |name| {
      var same := SameBytes(s, nameAt, nameLen, name);
      if same {
        var ino := ParseHex8(s, off + 6);
        var mode := ParseHex8(s, off + 14);
        var uid := ParseHex8(s, off + 22);
        var gid := ParseHex8(s, off + 30);
        var nlink := ParseHex8(s, off + 38);
        var mtime := ParseHex8(s, off + 46);
        return Found((Entry(nameAt, nameLen, dataAt, filesize), Meta(ino, mode, uid, gid, nlink, mtime)));
      }
    }
    r := Onward(Align4(dataEnd));
  }

  /** The search has gone through the first k entries and is at the given offset. */
  ghost predicate Searched(s: seq<Byte>, name: seq<Byte>, off: nat, k: nat) {
    var os := Offsets(s, 0);
    k <= |os| && Offsets(s, off) == os[k..] && forall j :: 0 <= j < k ==> NameAt(s, os[j]) != name
  }

  lemma SearchGoesOn(s: seq<Byte>, name: seq<Byte>, off: nat, k: nat)
    requires Searched(s, name, off, k)
    ensures !HasEntry(s, off) ==> NoneNamed(s, name)
    ensures HasEntry(s, off) ==> k < |Offsets(s, 0)| && Offsets(s, 0)[k] == off
    ensures HasEntry(s, off) && NameAt(s, off) == name ==> IsFirst(s, name, k) && !NoneNamed(s, name)
    ensures HasEntry(s, off) && NameAt(s, off) != name ==> Searched(s, name, NextAt(s, off), k + 1)
  {
    hide HasName, NameAt, NextAt;
    var os := Offsets(s, 0);
    if HasEntry(s, off) {
      var next := NextAt(s, off);
      assert os[k..] == [off] + Offsets(s, next);
      assert os[k] == off && os[k + 1..] == Offsets(s, next);
    }
  }

  /** Search by name: the first entry of the iteration that has it, nothing exactly if none has. */
  method FindFile(s: seq<Byte>, name: seq<Byte>) returns (r: Option<Entry>)
    ensures r.None? <==> NoneNamed(s, name)
    ensures r.Some? ==> exists k: nat :: IsFirst(s, name, k) && r.value == EntryAt(s, Offsets(s, 0)[k])
  {
    var off := 0;
    ghost var k := 0;
    hide HasEntry, NameAt, NextAt, EntryAt, NoneNamed;
    while true
      invariant Searched(s, name, off, k)
      decreases |Offsets(s, 0)| - k
    {
      var round := FindStep(s, off, name);
      SearchGoesOn(s, name, off, k);
      match round
      case End => return None;
      case Found(entry) => return Some(entry);
      case Onward(next) => off, k := next, k + 1;
    }
  }

  /** The same with the other fields of the header. */
  method FindFileExt(s: seq<Byte>, name: seq<Byte>) returns (r: Option<(Entry, Meta)>)
    ensures r.None? <==> NoneNamed(s, name)
    ensures r.Some? ==> exists k: nat :: IsFirst(s, name, k) && r.value == (EntryAt(s, Offsets(s, 0)[k]), MetaAt(s, Offsets(s, 0)[k]))
  {
    var off := 0;
    ghost var k := 0;
    hide NameAt, NextAt, EntryAt, MetaAt, NoneNamed;
    while true
      invariant Searched(s, name, off, k)
      decreases |Offsets(s, 0)| - k
    {
      var round := FindExtStep(s, off, name);
      SearchGoesOn(s, name, off, k);
      match round
      case End => return None;
      case Found(entry) => return Some(entry);
      case Onward(next) => off, k := next, k + 1;
    }
  }

  /** The archive's size, from an offset on: behind the trailer, or where a header is missing, or all
      of it if it is cut short. */
  function SizeFrom(s: seq<Byte>, off: nat): nat
    decreases if off <= |s| then |s| - off else 0
  {
    if off + HEADER > |s| then |s|
    else if s[off..off + 6] != MAGIC then off
    else if !HasName(s, off) then |s|
    else if NameAt(s, off) == TRAILER then NextAt(s, off)
    else if DataEnd(s, off) > |s| then |s|
    else SizeFrom(s, NextAt(s, off))
  }

  lemma SizeAt(s: seq<Byte>, off: nat)
    ensures HasName(s, off) ==>
              SizeFrom(s, off) == if NameAt(s, off) == TRAILER then NextAt(s, off)
                                  else if DataEnd(s, off) > |s| then |s|
                                  else SizeFrom(s, NextAt(s, off))
    ensures !HasName(s, off) ==> SizeFrom(s, off) == if off + HEADER <= |s| && s[off..off + 6] != MAGIC then off else |s|
  {}

  /** Whatever the archive looks like, its size is decided where the iteration ends: behind the trailer if that is there,
      at that place if no header is, else the size of the buffer. */
  lemma {:induction false} SizeIsAtStop(s: seq<Byte>, off: nat)
    ensures var e := Stop(s, off);
            SizeFrom(s, off) == if HasName(s, e) && NameAt(s, e) == TRAILER then NextAt(s, e)
                                else if e + HEADER <= |s| && s[e..e + 6] != MAGIC then e
                                else |s|
    decreases if off <= |s| then |s| - off else 0
  {
    SizeAt(s, off);
    hide Field, NameAt, DataEnd, SizeFrom;
    if HasEntry(s, off) { SizeIsAtStop(s, NextAt(s, off)); }
  }

  /** One round of the loop: the size if it is known at this entry, else the next offset. */
  method SizeStep(s: seq<Byte>, off: nat) returns (size: Option<nat>, next: nat)
    ensures size.Some? ==> size.value == SizeFrom(s, off)
    ensures size.None? ==> off + HEADER <= |s| && off + HEADER <= next && SizeFrom(s, off) == SizeFrom(s, next)
  {
    SizeAt(s, off);
    hide Quad, HexValue, Align4, SizeFrom;
    next := off;
    if off + HEADER > |s| {
      return Some(|s|), off;
    }
    var magic := CheckMagic(s, off);
    if !magic {
      return Some(off), off;
    }
    var namesize := ParseHex8(s, off + NAMESIZE_AT);
    var filesize := ParseHex8(s, off + FILESIZE_AT);
    var nameAt := off + HEADER;
    if nameAt + namesize > |s| {
      return Some(|s|), off;
    }
    var nameLen := namesize;
    if nameLen > 0 && s[nameAt + nameLen - 1] == 0 {
      nameLen := nameLen - 1;
    }
    var dataEnd := Align4(off + HEADER + namesize) + filesize;
    next := Align4(dataEnd);
    var trailer := IsTrailer(s, nameAt, nameLen);
    size := if trailer then Some(next) else if dataEnd > |s| then Some(|s|) else None;
  }

  method ArchiveSize(s: seq<Byte>) returns (size: nat)
    ensures size == SizeFrom(s, 0)
  {
    hide SizeFrom;
    var off := 0;
    while true
      invariant SizeFrom(s, off) == SizeFrom(s, 0)
      decreases |s| + HEADER - off
    {
      var r, next := SizeStep(s, off);
      if r.Some? {
        return r.value;
      }
      off := next;
    }
  }

  // ------------------------------------------------------------ writing

  /** A file as it goes into an archive; `other` holds the device numbers and the checksum. */
  datatype File = File(name: seq<Byte>, data: seq<Byte>, meta: Meta, other: seq<nat>)

  predicate MetaFits(m: Meta) {
    m.ino < U32 && m.mode < U32 && m.uid < U32 && m.gid < U32 && m.nlink < U32 && m.mtime < U32
  }

  predicate Fits(f: File) {
    |f.name| + 1 < U32 && |f.data| < U32 && MetaFits(f.meta) && |f.other| == 5
  }

  function Digit(d: nat): (b: Byte)
    requires d < 16
    ensures IsDigit(b) && DigitValue(b) == d
  {
    if d < 10 then 0x30 + d else 0x61 + (d - 10)
  }

  function Digits(v: nat, k: nat): (s: seq<Byte>)
    ensures |s| == k && forall i :: 0 <= i < k ==> IsDigit(s[i])
  {
    if k == 0 then [] else Digits(v / 16, k - 1) + [Digit(v % 16)]
  }

  function Pow16(k: nat): nat { if k == 0 then 1 else 16 * Pow16(k - 1) }

  lemma {:induction false} DigitsBack(v: nat, k: nat)
    requires v < Pow16(k)
    ensures DigitsValue(Digits(v, k)) == v
  {
    if 0 < k {
      DigitsBack(v / 16, k - 1);
      assert Digits(v, k)[..k - 1] == Digits(v / 16, k - 1);
    }
  }

  lemma Hex8Back(v: nat)
    requires v < U32
    ensures HexValue(Digits(v, 8)) == v
  {
    assert Pow16(8) == U32 by { assert Pow16(4) == 65536; assert Pow16(8) == 65536 * Pow16(4); }
    DigitsBack(v, 8);
  }

  function Flat(fields: seq<nat>): (s: seq<Byte>)
    ensures |s| == 8 * |fields|
  {
    if fields == [] then [] else Flat(fields[..|fields| - 1]) + Digits(fields[|fields| - 1], 8)
  }

  lemma {:induction false} FlatAt(fields: seq<nat>, j: nat)
    requires j < |fields|
    ensures Flat(fields)[8 * j..8 * j + 8] == Digits(fields[j], 8)
  {
    var n := |fields| - 1;
    if j < n {
      FlatAt(fields[..n], j);
      assert Flat(fields)[8 * j..8 * j + 8] == Flat(fields[..n])[8 * j..8 * j + 8];
    }
  }

  function Fields(f: File): (r: seq<nat>)
    requires |f.other| == 5
    ensures |r| == 13
  {
    [f.meta.ino, f.meta.mode, f.meta.uid, f.meta.gid, f.meta.nlink, f.meta.mtime, |f.data|] + f.other[..4] + [|f.name| + 1, f.other[4]]
  }

  function Zeros(n: nat): (s: seq<Byte>)
    ensures |s| == n
  {
    seq<Byte>(n, _ => 0)
  }

  /** Where the data starts in a file's part of the archive. */
  function DataPos(f: File): nat { Align4(HEADER + |f.name| + 1) }

  /** A file's part of the archive: header, name with NUL, data, each padded to four bytes. */
  function Part(f: File): (s: seq<Byte>)
    requires |f.other| == 5
    ensures |s| == Align4(DataPos(f) + |f.data|) && HEADER <= |s| && Quad(|s|)
  {
    MAGIC + Flat(Fields(f)) + (f.name + [0]) + Zeros(DataPos(f) - (HEADER + |f.name| + 1))
    + f.data + Zeros(Align4(DataPos(f) + |f.data|) - (DataPos(f) + |f.data|))
  }

  const LAST: File := File(TRAILER, [], Meta(0, 0, 0, 0, 1, 0), [0, 0, 0, 0, 0])

  ghost predicate AllFit(files: seq<File>) {
    forall k :: 0 <= k < |files| ==> Fits(files[k]) && files[k].name != TRAILER
  }

  function Archive(files: seq<File>): (s: seq<Byte>)
    requires forall k :: 0 <= k < |files| ==> |files[k].other| == 5
    ensures Quad(|s|)
  {
    if files == [] then Part(LAST)
    else
      var first, rest := Part(files[0]), Archive(files[1..]);
      QuadSum(|first|, |rest|);
      first + rest
  }

  /** The bytes of a part at fixed places. */
  lemma PartLayout(f: File)
    requires |f.other| == 5
    ensures var p := Part(f);
            && p[..6] == MAGIC && p[HEADER..HEADER + |f.name|] == f.name && p[HEADER + |f.name|] == 0
            && p[DataPos(f)..DataPos(f) + |f.data|] == f.data
    ensures forall j :: 0 <= j < 13 ==> Part(f)[6 + 8 * j..14 + 8 * j] == Flat(Fields(f))[8 * j..8 * j + 8]
  {
    hide Flat, Fields, Align4;
  }

  // ------------------------------------------------------------ reading what was written

  /** The archive has the file's part at the offset. */
  predicate Holds(s: seq<Byte>, off: nat, f: File)
    requires |f.other| == 5
  {
    Quad(off) && off + |Part(f)| <= |s| && s[off..off + |Part(f)|] == Part(f)
  }

  lemma Slice(s: seq<Byte>, off: nat, n: nat, a: nat, b: nat)
    requires off + n <= |s| && a <= b <= n
    ensures s[off..off + n][a..b] == s[off + a..off + b]
  {
    var x, y := s[off..off + n][a..b], s[off + a..off + b];
    assert forall k :: 0 <= k < b - a ==> x[k] == y[k];
  }

  lemma FieldRead(s: seq<Byte>, off: nat, f: File, j: nat)
    requires |f.other| == 5 && Holds(s, off, f) && j < 13 && Fields(f)[j] < U32
    ensures off + 6 + 8 * j + 8 <= |s| && Field(s, off, 6 + 8 * j) == Fields(f)[j]
  {
    hide Part, Fields, Flat;
    PartLayout(f);
    FlatAt(Fields(f), j);
    Hex8Back(Fields(f)[j]);
    Slice(s, off, |Part(f)|, 6 + 8 * j, 14 + 8 * j);
  }

  lemma FieldsRead(s: seq<Byte>, off: nat, f: File)
    requires Fits(f) && Holds(s, off, f)
    ensures off + HEADER <= |s| && MetaAt(s, off) == f.meta
    ensures Field(s, off, FILESIZE_AT) == |f.data| && Field(s, off, NAMESIZE_AT) == |f.name| + 1
  {
    hide Part, HexValue;
    FieldRead(s, off, f, 0);
    FieldRead(s, off, f, 1);
    FieldRead(s, off, f, 2);
    FieldRead(s, off, f, 3);
    FieldRead(s, off, f, 4);
    FieldRead(s, off, f, 5);
    FieldRead(s, off, f, 6);
    FieldRead(s, off, f, 11);
  }

  /** Reading at the start of a file's part gives the file, and the next offset is its end. */
  lemma PartRead(s: seq<Byte>, off: nat, f: File)
    requires Fits(f) && Holds(s, off, f)
    ensures HasName(s, off) && NameAt(s, off) == f.name && MetaAt(s, off) == f.meta
    ensures DataEnd(s, off) == DataAt(s, off) + |f.data| <= |s| && s[DataAt(s, off)..DataEnd(s, off)] == f.data
    ensures NextAt(s, off) == off + |Part(f)|
  {
    hide Quad, Part, Fields, Align4, Field, MetaAt;
    PartLayout(f);
    FieldsRead(s, off, f);
    var n := |Part(f)|;
    Slice(s, off, n, 0, 6);
    Slice(s, off, n, HEADER, HEADER + |f.name|);
    Slice(s, off, n, DataPos(f), DataPos(f) + |f.data|);
    assert s[off + HEADER + |f.name|] == s[off..off + n][HEADER + |f.name|] == 0;
    Align4Shift(off, HEADER + |f.name| + 1);
    Align4Shift(off, DataPos(f) + |f.data|);
  }

  /** What iteration finds at an offset is the file. */
  predicate Reads(s: seq<Byte>, off: nat, f: File) {
    && HasEntry(s, off) && NameAt(s, off) == f.name && MetaAt(s, off) == f.meta
    && s[DataAt(s, off)..DataEnd(s, off)] == f.data
  }

  lemma {:induction false} IterateFrom(s: seq<Byte>, off: nat, files: seq<File>)
    requires AllFit(files) && Quad(off) && off + |Archive(files)| <= |s| && s[off..off + |Archive(files)|] == Archive(files)
    ensures |Offsets(s, off)| == |files| && SizeFrom(s, off) == off + |Archive(files)|
    ensures forall k :: 0 <= k < |files| ==> Reads(s, Offsets(s, off)[k], files[k])
    decreases files
  {
    hide Quad, Part, HexValue, Align4, HasName, NameAt, NextAt, DataAt, DataEnd, MetaAt;
    var n := |Archive(files)|;
    if files == [] {
      assert Holds(s, off, LAST);
      PartRead(s, off, LAST);
      HeaderThere(s, off);
    } else {
      var f, rest := files[0], files[1..];
      var next := off + |Part(f)|;
      QuadSum(off, |Part(f)|);
      Slice(s, off, n, 0, |Part(f)|);
      Slice(s, off, n, |Part(f)|, n);
      assert Archive(files)[0..|Part(f)|] == Part(f) && Archive(files)[|Part(f)|..n] == Archive(rest);
      PartRead(s, off, f);
      HeaderThere(s, off);
      IterateFrom(s, next, rest);
      assert Offsets(s, off) == [off] + Offsets(s, next);
      forall k | 0 <= k < |files| ensures Reads(s, Offsets(s, off)[k], files[k]) {
        if k > 0 { assert files[k] == rest[k - 1]; }
      }
    }
  }

  lemma HeaderThere(s: seq<Byte>, off: nat)
    ensures HasName(s, off) ==> off + HEADER <= |s| && s[off..off + 6] == MAGIC
  {}

  /** The archive of a list of files, whatever follows it: iteration gives exactly these files and then
      ends, and the size is that of the archive. */
  lemma RoundTrip(files: seq<File>, after: seq<Byte>)
    requires AllFit(files)
    ensures var s := Archive(files) + after;
            && |Offsets(s, 0)| == |files| && SizeFrom(s, 0) == |Archive(files)|
            && forall k :: 0 <= k < |files| ==> Reads(s, Offsets(s, 0)[k], files[k])
  {
    hide Archive, Reads;
    var s := Archive(files) + after;
    assert s[0..0 + |Archive(files)|] == Archive(files);
    IterateFrom(s, 0, files);
  }

  lemma IterationGoesOn(s: seq<Byte>, off: nat, n: nat)
    requires n <= |Offsets(s, 0)| && Offsets(s, off) == Offsets(s, 0)[n..]
    ensures !HasEntry(s, off) ==> n == |Offsets(s, 0)|
    ensures HasEntry(s, off) ==> n < |Offsets(s, 0)| && Offsets(s, 0)[n] == off && Offsets(s, NextAt(s, off)) == Offsets(s, 0)[n + 1..]
  {
    hide HasName, NameAt, NextAt, DataEnd;
    var os := Offsets(s, 0);
    if HasEntry(s, off) {
      assert os[n..] == [off] + Offsets(s, NextAt(s, off));
      assert os[n] == off && os[n + 1..] == os[n..][1..];
    }
  }

  /** Iterates over an archive from its start. */
  method ListFiles(s: seq<Byte>) returns (es: seq<Entry>)
    ensures |es| == |Offsets(s, 0)| && forall k :: 0 <= k < |es| ==> es[k] == EntryAt(s, Offsets(s, 0)[k])
  {
    es := [];
    var off := 0;
    ghost var os := Offsets(s, 0);
    hide Offsets, HasEntry, NextAt, EntryAt;
    while true
      invariant |es| <= |os| && Offsets(s, off) == os[|es|..]
      invariant forall k :: 0 <= k < |es| ==> es[k] == EntryAt(s, os[k])
      decreases |os| - |es|
    {
      var e, next := Next(s, off);
      IterationGoesOn(s, off, |es|);
      if e.None? {
        return;
      }
      es, off := es + [e.value], next;
    }
  }

  /** The same with the other fields of the headers. */
  method ListFilesExt(s: seq<Byte>) returns (es: seq<(Entry, Meta)>)
    ensures |es| == |Offsets(s, 0)| && forall k :: 0 <= k < |es| ==> es[k] == (EntryAt(s, Offsets(s, 0)[k]), MetaAt(s, Offsets(s, 0)[k]))
  {
    es := [];
    var off := 0;
    ghost var os := Offsets(s, 0);
    hide Offsets, NextAt, EntryAt, MetaAt, NameAt, DataEnd, NameLen, Field;
    while true
      invariant |es| <= |os| && Offsets(s, off) == os[|es|..]
      invariant forall k :: 0 <= k < |es| ==> es[k] == (EntryAt(s, os[k]), MetaAt(s, os[k]))
      decreases |os| - |es|
    {
      var e, next := NextExt(s, off);
      IterationGoesOn(s, off, |es|);
      if e.None? {
        return;
      }
      es, off := es + [e.value], next;
    }
  }

  /** The entry's name and data in the archive are the file's. */
  predicate IsFile(s: seq<Byte>, e: Entry, f: File) {
    && e.nameAt + e.nameLen <= |s| && s[e.nameAt..e.nameAt + e.nameLen] == f.name
    && e.dataAt + e.dataLen <= |s| && s[e.dataAt..e.dataAt + e.dataLen] == f.data
  }

  /** Writes an archive, whatever follows it, and reads it back with both iterators: exactly the files, in
      order, and the size. */
  method ReadBack(files: seq<File>, after: seq<Byte>) returns (es: seq<Entry>, xs: seq<(Entry, Meta)>, size: nat)
    requires AllFit(files)
    ensures |es| == |xs| == |files| && size == |Archive(files)|
    ensures forall k :: 0 <= k < |files| ==>
              IsFile(Archive(files) + after, es[k], files[k]) && xs[k] == (es[k], files[k].meta)
  {
    var s := Archive(files) + after;
    RoundTrip(files, after);
    hide Archive, Offsets, SizeFrom, AllFit;
    es := ListFiles(s);
    xs := ListFilesExt(s);
    size := ArchiveSize(s);
    forall k | 0 <= k < |files| ensures IsFile(s, es[k], files[k]) && xs[k] == (es[k], files[k].meta) {
      assert Reads(s, Offsets(s, 0)[k], files[k]);
      ReadsIsFile(s, Offsets(s, 0)[k], files[k]);
    }
  }

  lemma ReadsIsFile(s: seq<Byte>, off: nat, f: File)
    requires Reads(s, off, f)
    ensures IsFile(s, EntryAt(s, off), f) && MetaAt(s, off) == f.meta
  {
    hide Align4, HexValue, MetaAt;
  }
}
