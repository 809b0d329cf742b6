/**
 The control line the SCP source sends before a file's bytes,
 `C0644 <size> <name>\n`, and the rule that picks the name from the local path.
 */
module Control {
  import opened Wrappers
  import opened Bytes

  /** The mode field, always "0644" whatever the local file's permissions are. */
  const MODE: seq<byte> := [48, 54, 52, 52]

  /** True when the path has a '/' at some index other than 0. */
  predicate HasInnerSlash(path: seq<byte>) {
    |path| > 1 && SLASH in path[1..]
  }

  /**
   The name sent for a local path: what follows its last '/', provided that
   '/' is not the path's first byte; otherwise the whole path. A path whose
   only '/' leads, such as "/file1", is therefore sent with its slash.
   */
  function BaseName(path: seq<byte>): (name: seq<byte>)
    ensures |name| <= |path| && name == path[|path| - |name|..]
    ensures HasInnerSlash(path) ==> SLASH !in name && path[|path| - |name| - 1] == SLASH
    ensures !HasInnerSlash(path) ==> name == path
  {
    var last := LastIndexOf(path, SLASH);
    if last > 0 then
      assert SLASH in path[1..] by { assert path[1..][last - 1] == SLASH; }
      path[last + 1..]
    else
      assert !HasInnerSlash(path);
      path
  }

  /** The name contains a '/' only when it is the whole path and that path's sole '/' leads it. */
  lemma BaseNameSlash(path: seq<byte>)
    ensures SLASH in BaseName(path) ==> BaseName(path) == path && path[0] == SLASH && SLASH !in path[1..]
  {
    var name := BaseName(path);
    if SLASH in name {
      assert !HasInnerSlash(path);
    }
  }

  /** A path with a directory prefix is stripped down to its last component. */
  lemma BaseNameStrips(dir: seq<byte>, name: seq<byte>)
    requires dir != [] && SLASH !in name
    ensures BaseName(dir + [SLASH] + name) == name
  {
    var path := dir + [SLASH] + name;
    assert path[1..][|dir| - 1] == SLASH;
    assert path[|path| - |name|..] == name;
  }

  /** A path whose only '/' is its first byte is sent verbatim, slash included. */
  lemma BaseNameKeepsLeadingSlash(name: seq<byte>)
    requires SLASH !in name
    ensures BaseName([SLASH] + name) == [SLASH] + name
  {
    assert ([SLASH] + name)[1..] == name;
  }

  /** `C0644 <size> <name>\n`, the size in decimal. */
  function ControlLine(size: nat, name: seq<byte>): (line: seq<byte>)
    ensures |line| > 8 && line[1..5] == MODE && line[|line| - 1] == NEWLINE
  {
    [UPPER_C] + MODE + [SPACE] + Decimal(size) + [SPACE] + name + [NEWLINE]
  }

  predicate AllOctalDigits(s: seq<byte>) {
    forall i | 0 <= i < |s| :: IsOctalDigit(s[i])
  }

  datatype Header = Header(mode: seq<byte>, size: nat, name: seq<byte>)

  /**
   Reads a control line back: 'C', four octal digits, a space, a decimal size
   without a superfluous leading zero, a space, and a name running up to the
   line's final '\n'.
   */
  function ParseControlLine(line: seq<byte>): (r: Option<Header>) {
    if |line| < 7 || line[0] != UPPER_C || line[5] != SPACE || line[|line| - 1] != NEWLINE then None
    else if !AllOctalDigits(line[1..5]) then None
    else
      var rest := line[6..|line| - 1];
      var k := IndexOf(rest, SPACE);
      if k <= 0 || !AllDigits(rest[..k]) || (k > 1 && rest[0] == DIGIT_ZERO) then None
      else Some(Header(line[1..5], ParseDecimal(rest[..k]), rest[k + 1..]))
  }

  /** The control line carries the mode, the declared size and the name, and nothing can be lost in it. */
  lemma ParseControlLineOfControlLine(size: nat, name: seq<byte>)
    ensures ParseControlLine(ControlLine(size, name)) == Some(Header(MODE, size, name))
  {
    var line := ControlLine(size, name);
    var digits := Decimal(size);
    var rest := digits + [SPACE] + name;
    var head := [UPPER_C] + MODE + [SPACE];
    Regroup(head, digits, name);
    assert line[..6] == head && line[6..|line| - 1] == rest;
    assert line[0] == UPPER_C && line[5] == SPACE;
    assert AllOctalDigits(MODE);
    assert rest[0] == digits[0];
    assert SPACE !in digits by {
      assert forall i | 0 <= i < |digits| :: IsDigit(digits[i]);
    }
    IndexOfAfter(digits, SPACE, name);
    assert rest[..|digits|] == digits;
    assert rest[|digits| + 1..] == name;
    ParseDecimalOfDecimal(size);
  }

  /** Every line that reads back with mode 0644 is exactly the control line of its size and name. */
  lemma ControlLineOfParseControlLine(line: seq<byte>)
    requires ParseControlLine(line).Some? && ParseControlLine(line).value.mode == MODE
    ensures var h := ParseControlLine(line).value; ControlLine(h.size, h.name) == line
  {
    var h := ParseControlLine(line).value;
    var rest := line[6..|line| - 1];
    var k := IndexOf(rest, SPACE);
    var digits := rest[..k];
    var head := [UPPER_C] + MODE + [SPACE];
    DecimalOfParseDecimal(digits);
    assert Decimal(h.size) == digits && h.name == rest[k + 1..];
    SplitAround(rest, k);
    assert line == line[..6] + rest + [NEWLINE];
    assert line[..6] == head;
    Regroup(head, digits, h.name);
  }

  /** The line with its size and name gathered into one middle part. */
  lemma Regroup(head: seq<byte>, digits: seq<byte>, name: seq<byte>)
    ensures head + digits + [SPACE] + name + [NEWLINE] == head + (digits + [SPACE] + name) + [NEWLINE]
  {
  }
}
