/**
 Address resolution (`resolveQuery`): a query string that already reads as
 XPath is used verbatim, anything else is handed to the CSS-to-XPath
 translator. The translator is an uninterpreted parameter.
 */
module Resolution {

  /** PHP's `$s[$i]` on a string: the one-character string at `i`, or the
      empty string (with a notice) when `i` is past the end. */
  function CharAt(s: string, i: nat): string {
    if i < |s| then [s[i]] else ""
  }

  /** The XPath forms recognised without translation: absolute (`/...`),
      the current node (`.` alone), relative from here (`./...`) and
      relative ascending (`../...`). */
  predicate IsXPath(q: string) {
    "/" <= q || q == "." || "./" <= q || "../" <= q
  }

  /** Resolves one query, reading the leading characters the way
      `FluidContext` does, one string offset at a time. */
  function ResolveQuery(q: string, translate: string -> string): (r: string)
    ensures IsXPath(q) ==> r == q
    ensures !IsXPath(q) ==> r == translate(q)
  {
    if CharAt(q, 0) == "/"
       || q == "."
       || (CharAt(q, 0) == "." && CharAt(q, 1) == "/")
       || (CharAt(q, 0) == "." && CharAt(q, 1) == "." && CharAt(q, 2) == "/")
    then q
    else translate(q)
  }

  /** Strings that look like XPath but lack the separator go to the
      translator: `..`, `.x`, and the empty string (whose offset reads yield
      the empty string rather than `/` or `.`). */
  lemma TranslatedLookalikes(translate: string -> string, q: string)
    requires q == "" || q == ".." || (|q| >= 2 && q[0] == '.' && q[1] != '/' && q[1] != '.')
    ensures ResolveQuery(q, translate) == translate(q)
  {
    if q == ".." {
      assert !("../" <= q);
    }
  }
}
