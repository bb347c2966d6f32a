/** The fixed-width symbol-name column of a printed metric line. */
module Format {
  import opened Seqs

  /** `TYPE_CHARS_LEN` in tsRank.ts and `typeChars` in x/tsRank.js. */
  const TypeChars: nat := 30

  function Spaces(n: nat): (r: string)
    ensures |r| == n
    ensures forall i :: 0 <= i < n ==> r[i] == ' '
  {
    if n == 0 then [] else Spaces(n - 1) + [' ']
  }

  /** `s.padEnd(width)`: `s` followed by as many spaces as it lacks to reach `width`. */
  function PadEnd(s: string, width: nat): (r: string)
    ensures |r| == Max(|s|, width)
    ensures r[..|s|] == s
    ensures forall i :: |s| <= i < |r| ==> r[i] == ' '
  {
    if |s| >= width then s else s + Spaces(width - |s|)
  }

  /**
   * `name.slice(0, width).padEnd(width)`: exactly `width` characters, the name cut to that many and
   * filled out with spaces.
   */
  function NameColumn(name: string, width: nat): (col: string)
    ensures |col| == width
    ensures |name| >= width ==> col == name[..width]
    ensures |name| < width ==> col[..|name|] == name && forall i :: |name| <= i < width ==> col[i] == ' '
  {
    PadEnd(Slice(name, width), width)
  }

  /** `cli.symbolName` without its colouring: the name column of width `TypeChars`. */
  function SymbolColumn(name: string): (col: string)
    ensures |col| == TypeChars
  {
    NameColumn(name, TypeChars)
  }

  /** `s` without its trailing spaces. */
  function TrimEnd(s: string): (r: string)
    ensures |r| <= |s| && r == s[..|r|]
    ensures r == [] || r[|r| - 1] != ' '
    ensures forall i :: |r| <= i < |s| ==> s[i] == ' '
    decreases |s|
  {
    if s != [] && s[|s| - 1] == ' ' then TrimEnd(s[..|s| - 1]) else s
  }

  /** A string that ends in a space-free tail of `n` characters after its spaces trims to that tail. */
  lemma {:induction false} TrimEndPadding(s: string, n: nat)
    requires n <= |s|
    requires s[..n] == [] || s[n - 1] != ' '
    requires forall i :: n <= i < |s| ==> s[i] == ' '
    ensures TrimEnd(s) == s[..n]
    decreases |s|
  {
    if |s| > n {
      assert s[..|s| - 1][..n] == s[..n];
      TrimEndPadding(s[..|s| - 1], n);
    } else {
      assert s == s[..n];
    }
  }

  /**
   * The column loses nothing from a name that fits and does not end in a space: trimming the
   * padding gives the name back.
   */
  lemma NameColumnRoundTrip(name: string, width: nat)
    requires |name| <= width
    requires name == [] || name[|name| - 1] != ' '
    ensures TrimEnd(NameColumn(name, width)) == name
  {
    var col := NameColumn(name, width);
    if |name| == width {
      assert col == name[..width] == name;
    }
    TrimEndPadding(col, |name|);
  }

  /** Names that agree on their first `width` characters get the same column. */
  lemma NameColumnTruncates(a: string, b: string, width: nat)
    requires |a| >= width && |b| >= width && a[..width] == b[..width]
    ensures NameColumn(a, width) == NameColumn(b, width)
  {
  }
}
