/** The directory in the boot block: lookup by name, and reading the names one after the other. */
module Directory {
  import opened Memory
  import opened FileSystem
  import opened Files

  const NAME_LEN: nat := 32

  datatype Entry = Entry(name: seq<Byte>, fileType: nat, inode: nat)

  function EntryAt(i: nat): nat { 64 + 64 * i }

  /** The name field of entry `i`, 32 bytes that need not end in a NUL. */
  function NameField(img: Image, i: nat): (name: seq<Byte>)
    requires Laid(img) && i < DirCount(img)
    ensures |name| == NAME_LEN
  {
    img[EntryAt(i)..EntryAt(i) + NAME_LEN]
  }

  lemma {:induction false} CStringUnique(field: seq<Byte>, t: seq<Byte>)
    requires |t| <= |field| && NulFree(t) && field[..|t|] == t && (|t| < |field| ==> field[|t|] == 0)
    ensures CString(field) == t
    decreases |t|
  {
    if t == [] {
    } else {
      assert field[0] == field[..|t|][0] && field[1..][..|t| - 1] == field[..|t|][1..];
      CStringUnique(field[1..], t[1..]);
    }
  }


  function Padded(t: seq<Byte>): (r: seq<Byte>)
    requires |t| <= NAME_LEN
    ensures |r| == NAME_LEN
  {
    t + seq(NAME_LEN - |t|, i => 0)
  }

  /** The first entry from `i` on with the name; the number of entries when there is none. */
  function FirstNamed(img: Image, name: seq<Byte>, i: nat): (j: nat)
    requires Laid(img) && i <= DirCount(img)
    ensures i <= j <= DirCount(img) && (j < DirCount(img) ==> CString(NameField(img, j)) == name)
    ensures forall k | i <= k < j :: CString(NameField(img, k)) != name
    decreases DirCount(img) - i
  {
    if i == DirCount(img) || CString(NameField(img, i)) == name then i else FirstNamed(img, name, i + 1)
  }

  // ----- the string routines of the library -----

  /** `strncpy` of a name field: what precedes the NUL, then zeros. */
  method Strncpy(dest: array<Byte>, src: seq<Byte>, from: nat)
    requires dest.Length >= NAME_LEN && from + NAME_LEN < |src|
    modifies dest
    ensures dest[..NAME_LEN] == Padded(CString(src[from..from + NAME_LEN]))
    ensures dest[NAME_LEN..] == old(dest[NAME_LEN..])
  {
    ghost var field := src[from..from + NAME_LEN];
    ghost var text := CString(field);
    assert 0 < |text| ==> text[0] == field[..|text|][0];
    var i: nat := 0;
    while src[from + i] != 0 && i < NAME_LEN
      invariant i <= |text| && dest[..i] == text[..i] && dest[NAME_LEN..] == old(dest[NAME_LEN..])
      invariant i < NAME_LEN ==> field[i] == src[from + i] && (i < |text| ==> text[i] == field[i])
      decreases NAME_LEN - i
    {
      assert field[..|text|] == text;
      dest[i] := src[from + i];
      i := i + 1;
      assert i < |text| ==> text[i] == field[..|text|][i];
    }
    while i < NAME_LEN
      invariant |text| <= i <= NAME_LEN && dest[..i] == text + seq(i - |text|, j => 0)
      invariant dest[NAME_LEN..] == old(dest[NAME_LEN..])
    {
      dest[i] := 0;
      i := i + 1;
    }
  }

  /** `strncmp` of a padded name with a C string of at most 32 bytes. */
  method Strncmp(s1: array<Byte>, name: seq<Byte>) returns (difference: int)
    requires s1.Length == NAME_LEN && |name| <= NAME_LEN && NulFree(name)
    ensures difference == 0 <==> CString(s1[..]) == name
  {
    var s2 := name + [0];
    var i: nat := 0;
    while i < NAME_LEN
      invariant i <= |name| && i <= NAME_LEN && s1[..i] == name[..i]
    {
      if s1[i] != s2[i] || s1[i] == 0 {
        difference := Signed(s1[i]) - Signed(s2[i]);
        if s1[i] == s2[i] {
          assert i == |name|;
          CStringUnique(s1[..], name);
        } else {
        }
        return;
      }
      assert s1[..i + 1] == s1[..i] + [s1[i]] && name[..i + 1] == name[..i] + [name[i]];
      i := i + 1;
    }
    assert s1[..] == s1[..NAME_LEN] && name == name[..NAME_LEN];
    CStringUnique(s1[..], name);
    difference := 0;
  }

  // ----- lookup -----

  /** `read_dentry_by_index`. */
  method ReadDentryByIndex(img: Image, index: int) returns (result: int, entry: Entry)
    requires Laid(img)
    ensures result == 0 <==> 0 <= index < DirCount(img)
    ensures result == 0 || result == -1
    ensures result == 0 ==>
              && entry.name == Padded(CString(NameField(img, index)))
              && entry.fileType == WordAt(img, EntryAt(index) + 32) && entry.inode == WordAt(img, EntryAt(index) + 36)
  {
    entry := Entry([], 0, 0);
    if index < 0 || index >= DirCount(img) {
      return -1, entry;
    }
    var name := new Byte[NAME_LEN];
    Strncpy(name, img, EntryAt(index));
    entry := Entry(name[..], WordAt(img, EntryAt(index) + 32), WordAt(img, EntryAt(index) + 36));
    result := 0;
  }

  /** `read_dentry_by_name`: the first entry with the name; none for a name of more than 32 bytes. */
  method ReadDentryByName(img: Image, name: seq<Byte>) returns (result: int, entry: Entry, ghost index: nat)
    requires Laid(img) && NulFree(name)
    ensures result == 0 || result == -1
    ensures result == 0 <==> FirstNamed(img, name, 0) < DirCount(img)
    ensures result == 0 ==>
              && index == FirstNamed(img, name, 0) && entry.name == Padded(name)
              && entry.fileType == WordAt(img, EntryAt(index) + 32) && entry.inode == WordAt(img, EntryAt(index) + 36)
  {
    entry, index := Entry([], 0, 0), 0;
    if |name| > NAME_LEN {
      return -1, entry, index;
    }
    var str1 := new Byte[NAME_LEN];
    var i: nat := 0;
    while i < DirCount(img)
      invariant i <= DirCount(img) && FirstNamed(img, name, 0) == FirstNamed(img, name, i)
    {
      hide Padded, CString, Laid;
      var same := EntryHasName(img, i, name, str1);
      if same {
        index := i;
        result, entry := ReadDentryByIndex(img, i);
        return;
      }
      i := i + 1;
    }
    result := -1;
  }

  /** One turn of the lookup loop. */
  method EntryHasName(img: Image, i: nat, name: seq<Byte>, str1: array<Byte>) returns (same: bool)
    requires Laid(img) && NulFree(name) && |name| <= NAME_LEN && i < DirCount(img) && str1.Length == NAME_LEN
    modifies str1
    ensures same <==> CString(NameField(img, i)) == name
  {
    Strncpy(str1, img, EntryAt(i));
    PaddedString(CString(NameField(img, i)));
    assert str1[..] == str1[..NAME_LEN];
    var difference := Strncmp(str1, name);
    same := difference == 0;
  }

  lemma {:induction false} PaddedString(t: seq<Byte>)
    requires |t| <= NAME_LEN && NulFree(t)
    ensures CString(Padded(t)) == t
  {
    CStringUnique(Padded(t), t);
  }

  // ----- reading the directory -----

  class DirectoryDescriptor {
    var open: bool
    var position: nat

    /** As `directory_open` leaves it. */
    constructor ()
      ensures open && position == 0
    {
      open := true;
      position := 0;
    }

    /** `directory_read`: 0 from the end on. */
    method Read(img: Image, buf: array<Byte>, n: nat) returns (count: int)
      requires Laid(img) && buf.Length >= NAME_LEN && n <= buf.Length
      modifies this`position, buf
      ensures count >= -1 && (count == -1 <==> !open)
      ensures count == 0 <==> open && old(position) >= DirCount(img)
      ensures count <= 0 ==> position == old(position) && buf[..] == old(buf[..])
      ensures count > 0 ==>
                && count == NAME_LEN && position == old(position) + 1 && buf[..NAME_LEN] == NameAt(img, old(position))
                && forall j | NAME_LEN <= j < buf.Length :: buf[j] == if j < n then 0 else old(buf[j])
    {
      if !open {
        return -1;
      }
      count := ReadName(img, position, buf, n);
      if count > 0 {
        position := position + 1;
      }
    }
  }

  /** The name of an entry as a read delivers it. */
  function NameAt(img: Image, i: nat): (name: seq<Byte>)
    requires Laid(img) && i < DirCount(img)
    ensures |name| == NAME_LEN
  {
    Padded(CString(NameField(img, i)))
  }

  /** Clears the bytes asked for, then always writes 32, whatever was asked for. */
  method ReadName(img: Image, position: nat, buf: array<Byte>, n: nat) returns (count: nat)
    requires Laid(img) && buf.Length >= NAME_LEN && n <= buf.Length
    modifies buf
    ensures count == if position < DirCount(img) then NAME_LEN else 0
    ensures count == 0 ==> buf[..] == old(buf[..])
    ensures count > 0 ==>
              && buf[..NAME_LEN] == NameAt(img, position)
              && forall j | NAME_LEN <= j < buf.Length :: buf[j] == if j < n then 0 else old(buf[j])
  {
    hide Padded, CString, NameField;
    if position >= DirCount(img) {
      return 0;
    }
    ClearBuffer(buf, 0, n);
    ghost var cleared := buf[..];
    var result, entry := ReadDentryByIndex(img, position);
    var idx := 0;
    while idx < NAME_LEN
      invariant 0 <= idx <= NAME_LEN && buf[..idx] == entry.name[..idx]
      invariant forall j | NAME_LEN <= j < buf.Length :: buf[j] == cleared[j]
    {
      buf[idx] := entry.name[idx];
      idx := idx + 1;
    }
    count := NAME_LEN;
  }

  /** The names of the entries from `i` on. */
  function Names(img: Image, i: nat): seq<seq<Byte>>
    requires Laid(img) && i <= DirCount(img)
    decreases DirCount(img) - i
  {
    if i == DirCount(img) then [] else [NameAt(img, i)] + Names(img, i + 1)
  }

  /** The read loop of a program such as `ls`: every entry once, in order, and then the end. */
  method ListAll(dir: DirectoryDescriptor, img: Image, buf: array<Byte>) returns (names: seq<seq<Byte>>)
    requires Laid(img) && buf.Length >= NAME_LEN && dir.open && dir.position <= DirCount(img)
    modifies dir`position, buf
    ensures names == Names(img, old(dir.position)) && dir.position == DirCount(img)
  {
    hide NameAt;
    names := [];
    ghost var start := dir.position;
    while true
      invariant dir.position <= DirCount(img) && names + Names(img, dir.position) == Names(img, start)
      decreases DirCount(img) - dir.position
    {
      var count := dir.Read(img, buf, NAME_LEN);
      if count == 0 {
        return;
      }
      names := names + [buf[..count]];
    }
  }
}
