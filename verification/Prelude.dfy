/** Option values, and the text helpers that several components share. */
module Prelude {
  datatype Option<+T> = None | Some(value: T)

  /** `text.slice(0, n)`. */
  function Clip(text: string, n: nat): string
  {
    if |text| <= n then text else text[..n]
  }

  /** The characters that `String.prototype.trim` removes and that `\s` matches. */
  predicate IsSpaceCode(code: int)
  {
    || 9 <= code <= 13 || code == 0x20 || code == 0xA0 || code == 0x1680
    || 0x2000 <= code <= 0x200A || code == 0x2028 || code == 0x2029
    || code == 0x202F || code == 0x205F || code == 0x3000 || code == 0xFEFF
  }

  predicate IsSpace(c: char)
  {
    IsSpaceCode(c as int)
  }

  function TrimStart(text: string): string
  {
    if text != "" && IsSpace(text[0]) then TrimStart(text[1..]) else text
  }

  function TrimEnd(text: string): string
  {
    if text != "" && IsSpace(text[|text| - 1]) then TrimEnd(text[..|text| - 1]) else text
  }

  function Trim(text: string): string
  {
    TrimEnd(TrimStart(text))
  }

  lemma TrimKeeps(text: string)
    requires text != "" && !IsSpace(text[0]) && !IsSpace(text[|text| - 1])
    ensures Trim(text) == text
  {
  }

  /** The white space of ECMA-262, code by code. */
  lemma SpaceCodes(code: int)
    ensures IsSpaceCode(code) <==> code in {
      9, 10, 11, 12, 13, 32, 160, 5760, 8192, 8193, 8194, 8195, 8196, 8197, 8198, 8199, 8200, 8201, 8202,
      8232, 8233, 8239, 8287, 12288, 65279 }
  {
  }

  predicate AllSpace(text: string)
  {
    forall i :: 0 <= i < |text| ==> IsSpace(text[i])
  }

  /** Trimming takes white space off both ends, all of it and nothing else. */
  lemma TrimMeans(text: string)
    ensures exists front, back :: text == front + Trim(text) + back && AllSpace(front) && AllSpace(back)
    ensures Trim(text) != "" ==> !IsSpace(Trim(text)[0]) && !IsSpace(Trim(text)[|Trim(text)| - 1])
  {
    var front := TrimStartMeans(text);
    var middle := TrimStart(text);
    var back := TrimEndMeans(middle);
    assert text == front + Trim(text) + back;
    if Trim(text) != "" { assert Trim(text)[0] == middle[0]; }
  }

  /** Nothing is left of a text exactly when it is all white space. */
  lemma TrimIsEmpty(text: string)
    ensures Trim(text) == "" <==> AllSpace(text)
  {
    TrimMeans(text);
    var front, back :| text == front + Trim(text) + back && AllSpace(front) && AllSpace(back);
    if Trim(text) != "" { assert text[|front|] == Trim(text)[0]; }
  }

  lemma {:induction false} TrimStartMeans(text: string) returns (front: string)
    ensures text == front + TrimStart(text) && AllSpace(front)
    ensures TrimStart(text) != "" ==> !IsSpace(TrimStart(text)[0])
  {
    if text != "" && IsSpace(text[0]) {
      var rest := TrimStartMeans(text[1..]);
      front := [text[0]] + rest;
      assert text == [text[0]] + text[1..];
    } else {
      front := "";
    }
  }

  lemma {:induction false} TrimEndMeans(text: string) returns (back: string)
    ensures text == TrimEnd(text) + back && AllSpace(back)
    ensures TrimEnd(text) != "" ==> !IsSpace(TrimEnd(text)[|TrimEnd(text)| - 1])
  {
    if text != "" && IsSpace(text[|text| - 1]) {
      var rest := TrimEndMeans(text[..|text| - 1]);
      back := rest + [text[|text| - 1]];
      assert text == text[..|text| - 1] + [text[|text| - 1]];
    } else {
      back := "";
    }
  }

  /** Clipping keeps a short text and the first `n` characters of a longer one. */
  lemma ClipMeans(text: string, n: nat)
    ensures Clip(text, n) <= text && |Clip(text, n)| == if |text| < n then |text| else n
  {
  }
}
