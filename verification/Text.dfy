/** `str::replace`, and what it does to concatenations. */
module Text {
  import opened Sequences

  /** Every non-overlapping occurrence of `pat`, from the left, replaced by `to`. */
  function Replace(s: string, pat: string, to: string): string
    requires pat != ""
    decreases |s|
  {
    if s == "" then ""
    else if pat <= s then to + Replace(s[|pat|..], pat, to)
    else [s[0]] + Replace(s[1..], pat, to)
  }

  /** Each character replaced by a text of its own. */
  function MapChars(s: string, f: char -> string): string {
    if s == "" then "" else f(s[0]) + MapChars(s[1..], f)
  }

  lemma {:induction false} MapCharsAppend(a: string, b: string, f: char -> string)
    ensures MapChars(a + b, f) == MapChars(a, f) + MapChars(b, f)
  {
    if a == "" {
      assert a + b == b;
    } else {
      HeadTail(a, b);
      MapCharsAppend(a[1..], b, f);
      Assoc(f(a[0]), MapChars(a[1..], f), MapChars(b, f));
    }
  }

  function Swap(c: char, to: string): char -> string {
    (x: char) => if x == c then to else [x]
  }

  /** Replacing a single character is a map over the characters. */
  lemma {:induction false} ReplaceCharIsMap(s: string, c: char, to: string)
    ensures Replace(s, [c], to) == MapChars(s, Swap(c, to))
  {
    if s != "" {
      assert [c] <= s <==> s[0] == c;
      ReplaceCharIsMap(s[1..], c, to);
    }
  }
}
