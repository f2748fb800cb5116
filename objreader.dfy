// The tokenizer of the OBJ reader, over the text of a line up to its terminating NUL,
// and the mesh the reader fills.

module ObjReader {
  /** A mesh as read from an OBJ file or from ptex mesh metadata: vertex positions (three
      coordinates per vertex), the vertex count of each face and the vertex indices of all
      faces, one face after another. */
  class ObjMesh {
    var pos: seq<real>
    var nverts: seq<int>
    var verts: seq<int>

    constructor ()
      ensures pos == [] && nverts == [] && verts == []
    {
      pos, nverts, verts := [], [], [];
    }
  }

  /** The characters that separate tokens: space, tab and carriage return (not newline). */
  predicate Blank(c: char)
  {
    c == ' ' || c == '\t' || c == '\r'
  }

  /** t[a..b] is made of blanks. */
  predicate BlankBetween(t: string, a: int, b: int)
    requires 0 <= a <= b <= |t|
  {
    forall k | a <= k < b :: Blank(t[k])
  }

  /** t[a..b] holds no blank. */
  predicate NoBlankBetween(t: string, a: int, b: int)
    requires 0 <= a <= b <= |t|
  {
    forall k | a <= k < b :: !Blank(t[k])
  }

  /** Where the run of blanks starting at a ends (strspn over the blanks, from a). */
  function BlankEnd(t: string, a: nat): (e: nat)
    requires a <= |t|
    ensures a <= e <= |t| && BlankBetween(t, a, e) && (e == |t| || !Blank(t[e]))
    decreases |t| - a
  {
    if a < |t| && Blank(t[a]) then BlankEnd(t, a + 1) else a
  }

  /** skip_space: the text after its longest prefix of blanks. */
  function SkipSpace(t: string): (r: string)
    ensures |r| <= |t| && r == t[|t| - |r|..] && BlankBetween(t, 0, |t| - |r|)
    ensures |r| == 0 || !Blank(r[0])
  {
    t[BlankEnd(t, 0)..]
  }

  /** get_token: the token after the leading blanks, and the text after the token and the
      blanks that follow it (where the caller's cursor is left).  The text is the leading
      blanks, the token, the trailing blanks and the rest, in that order; the token holds no
      blank and ends at a blank or at the end; the rest starts with no blank; and the token
      is empty exactly when the text is all blanks. */
  method GetToken(str: string) returns (tok: string, rest: string)
    ensures var i := BlankEnd(str, 0);
      i + |tok| + |rest| <= |str| && tok == str[i..i + |tok|] && rest == str[|str| - |rest|..] &&
      NoBlankBetween(str, i, i + |tok|) && BlankBetween(str, i + |tok|, |str| - |rest|)
    ensures |rest| == 0 || !Blank(rest[0])
    ensures BlankEnd(str, 0) + |tok| == |str| - |rest| ==> |rest| == 0
    ensures tok == [] <==> BlankBetween(str, 0, |str|)
  {
    var i := BlankEnd(str, 0);
    var n := i;
    while n < |str| && !Blank(str[n])
      invariant i <= n <= |str| && NoBlankBetween(str, i, n)
    {
      n := n + 1;
    }
    tok := str[i..n];
    var j := BlankEnd(str, n);
    rest := str[j..];
    assert i < |str| ==> !Blank(str[i]);
  }

  /** line_end: the line is over at its NUL or at a newline. */
  predicate LineEnd(buf: string)
  {
    |buf| == 0 || buf[0] == '\n'
  }

  /** parse_line: the line's first token is read, and whatever it is, nothing is added to
      the mesh and the line is accepted.  The result is the status (always 0) and the token
      read, empty when the line holds only blanks or ends before any. */
  method ParseLine(mesh: ObjMesh, buf: string) returns (status: int, tok: string)
    ensures status == 0
    ensures tok == [] <==> BlankBetween(buf, 0, |buf|) || LineEnd(SkipSpace(buf))
    ensures forall k | 0 <= k < |tok| :: !Blank(tok[k])
  {
    var b := SkipSpace(buf);
    if LineEnd(b) {
      return 0, [];
    }
    var rest;
    tok, rest := GetToken(b);
    assert !BlankBetween(b, 0, |b|);
    return 0, tok;
  }
}
