/** Table cells and the text operations the row filter applies to them:
    the display string of a cell, lower-casing and substring search. */
module Cells {

  /** A cell of a row: JavaScript `null`, a primitive (string or number,
      kept as the string it converts to), or a structured cell `{ text }`. */
  datatype Cell = Null | Prim(value: string) | Structured(text: string)

  /** What `String(o)` yields for a plain object without its own `toString`. */
  const ObjectText: string := "[object Object]"

  /** The string the filter reads from a non-null cell: `(cell.text || cell).toString()`.
      A primitive has no `text` property and stands for itself; a structured cell whose
      `text` is empty (falsy) falls back to the object, which stringifies as `ObjectText`. */
  function DisplayText(c: Cell): (s: string)
    requires c != Null
    ensures c.Prim? ==> s == c.value
    ensures c.Structured? && c.text != "" ==> s == c.text
    ensures c.Structured? ==> s != ""
  {
    match c
    case Prim(v) => v
    case Structured(t) => if t != "" then t else ObjectText
  }

  predicate IsUpper(ch: char) {
    'A' <= ch <= 'Z'
  }

  /** Lower-cases one character: ASCII capitals map to their small letters. */
  function LowerChar(ch: char): (r: char)
    ensures !IsUpper(r)
    ensures IsUpper(ch) ==> r as int == ch as int + 32
    ensures !IsUpper(ch) ==> r == ch
  {
    if IsUpper(ch) then (ch as int + 32) as char else ch
  }

  /** `String.prototype.toLowerCase`, restricted to the ASCII letters. */
  function ToLower(s: string): (r: string)
    ensures |r| == |s|
    ensures forall i :: 0 <= i < |s| ==> r[i] == LowerChar(s[i])
  {
    if s == [] then [] else [LowerChar(s[0])] + ToLower(s[1..])
  }

  /** Lower-casing a second time changes nothing. */
  lemma ToLowerIdempotent(s: string)
    ensures ToLower(ToLower(s)) == ToLower(s)
  {
    var once := ToLower(s);
    var twice := ToLower(once);
    assert forall i :: 0 <= i < |s| ==> twice[i] == once[i] by {
      forall i | 0 <= i < |s| ensures twice[i] == once[i] {
        assert !IsUpper(once[i]);
      }
    }
  }

  /** `needle` occurs in `hay` starting at position `i`. */
  predicate OccursAt(hay: string, needle: string, i: int) {
    0 <= i && i + |needle| <= |hay| && hay[i..i + |needle|] == needle
  }

  /** `String.prototype.indexOf`: the first position at which `needle` occurs in
      `hay`, or -1 when it occurs nowhere. */
  function IndexOf(hay: string, needle: string): (r: int)
    ensures -1 <= r <= |hay|
    ensures r >= 0 ==> OccursAt(hay, needle, r)
    ensures r >= 0 ==> forall j :: 0 <= j < r ==> !OccursAt(hay, needle, j)
    ensures r == -1 <==> forall j :: !OccursAt(hay, needle, j)
    decreases |hay|
  {
    if |needle| > |hay| then
      assert forall j :: !OccursAt(hay, needle, j);
      -1
    else if hay[..|needle|] == needle then
      assert OccursAt(hay, needle, 0);
      0
    else
      var rest := IndexOf(hay[1..], needle);
      assert forall j :: OccursAt(hay[1..], needle, j) <==> OccursAt(hay, needle, j + 1) by {
        forall j ensures OccursAt(hay[1..], needle, j) <==> OccursAt(hay, needle, j + 1) {
          if 0 <= j && j + |needle| <= |hay[1..]| {
            assert hay[1..][j..j + |needle|] == hay[j + 1..j + 1 + |needle|];
          }
        }
      }
      assert !OccursAt(hay, needle, 0);
      if rest == -1 then
        assert forall j :: !OccursAt(hay, needle, j) by {
          forall j ensures !OccursAt(hay, needle, j) {
            if j > 0 {
              assert !OccursAt(hay[1..], needle, j - 1);
            }
          }
        }
        -1
      else
        assert forall j :: 0 <= j < rest + 1 ==> !OccursAt(hay, needle, j) by {
          forall j | 0 < j < rest + 1 ensures !OccursAt(hay, needle, j) {
            assert !OccursAt(hay[1..], needle, j - 1);
          }
        }
        rest + 1
  }

  /** `needle` occurs somewhere in `hay`. */
  ghost predicate Occurs(hay: string, needle: string) {
    exists i :: OccursAt(hay, needle, i)
  }

  /** `hay.indexOf(needle) >= 0`: the containment test the filter applies. */
  predicate Contains(hay: string, needle: string)
    ensures Contains(hay, needle) <==> Occurs(hay, needle)
  {
    IndexOf(hay, needle) >= 0
  }

  /** The empty string is found at position 0 of every string, so it is contained in all. */
  lemma EmptyNeedleFoundAtStart(hay: string)
    ensures IndexOf(hay, "") == 0
    ensures Contains(hay, "")
  {
    assert OccursAt(hay, "", 0);
  }
}
