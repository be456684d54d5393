/** The add form (TodoAdd.js): one text field, a change handler that replaces
    it, and a submit handler that forwards the text when it is not blank. */
module AddForm {

  datatype Option<T> = None | Some(value: T)

  /** The characters `String.prototype.trim` strips: ECMAScript's WhiteSpace
      (tab, vertical tab, form feed, the byte order mark and the Unicode
      space separators) and LineTerminator (LF, CR, U+2028, U+2029). */
  const Whitespace: set<char> :=
    { '\t', '\n', '\U{000B}', '\U{000C}', '\r', ' ', '\U{00A0}', '\U{1680}',
      '\U{2000}', '\U{2001}', '\U{2002}', '\U{2003}', '\U{2004}', '\U{2005}',
      '\U{2006}', '\U{2007}', '\U{2008}', '\U{2009}', '\U{200A}',
      '\U{2028}', '\U{2029}', '\U{202F}', '\U{205F}', '\U{3000}', '\U{FEFF}' }

  /** Letters and digits are never stripped; space, tab, LF and CR always are. */
  predicate IsWhitespace(c: char)
    ensures ('0' <= c <= '9' || 'a' <= c <= 'z' || 'A' <= c <= 'Z') ==> !IsWhitespace(c)
    ensures (c == ' ' || c == '\t' || c == '\n' || c == '\r') ==> IsWhitespace(c)
  {
    c in Whitespace
  }

  /** `s` with its leading whitespace removed. */
  function TrimStart(s: string): (r: string)
    ensures |r| <= |s| && r == s[|s| - |r|..]
    ensures forall i :: 0 <= i < |s| - |r| ==> IsWhitespace(s[i])
    ensures r == [] || !IsWhitespace(r[0])
  {
    if s != [] && IsWhitespace(s[0]) then TrimStart(s[1..]) else s
  }

  /** `s` with its trailing whitespace removed. */
  function TrimEnd(s: string): (r: string)
    ensures |r| <= |s| && r == s[..|r|]
    ensures forall i :: |r| <= i < |s| ==> IsWhitespace(s[i])
    ensures r == [] || !IsWhitespace(r[|r| - 1])
  {
    if s != [] && IsWhitespace(s[|s| - 1]) then TrimEnd(s[..|s| - 1]) else s
  }

  /** `r` is what is left of `s` once its first `a` characters and everything
      after `r` are stripped, and all of those are whitespace. */
  predicate StripsTo(s: string, a: int, r: string)
  {
    && 0 <= a <= |s|
    && r <= s[a..]
    && (forall i :: 0 <= i < a ==> IsWhitespace(s[i]))
    && (forall i :: a + |r| <= i < |s| ==> IsWhitespace(s[i]))
  }

  /** `task.trim()`: the slice of `s` left after stripping whitespace at both
      ends; it starts and ends with a visible character, and it is empty
      exactly when `s` is all whitespace. */
  function Trim(s: string): (r: string)
    ensures exists a :: StripsTo(s, a, r)
    ensures r == [] || (!IsWhitespace(r[0]) && !IsWhitespace(r[|r| - 1]))
    ensures r == [] <==> forall i :: 0 <= i < |s| ==> IsWhitespace(s[i])
  {
    var front := TrimStart(s);
    var r := TrimEnd(front);
    TrimBothEnds(s, front, r);
    StrippedBlank(s, |s| - |front|, r);
    r
  }

  /** Trimming the front and then the back strips `s` down to `r`. */
  lemma TrimBothEnds(s: string, front: string, r: string)
    requires front == TrimStart(s) && r == TrimEnd(front)
    ensures StripsTo(s, |s| - |front|, r)
    ensures r == [] || !IsWhitespace(r[0])
  {
    var a := |s| - |front|;
    assert front == s[a..];
    assert r == front[..|r|];
    assert r <= s[a..];
    forall i | a + |r| <= i < |s| ensures IsWhitespace(s[i]) {
      assert s[i] == front[i - a];
    }
    if r != [] {
      assert front[0] == r[0];
    }
  }

  /** A stripped slice that starts visibly is empty just when all of `s` is
      whitespace. */
  lemma StrippedBlank(s: string, a: int, r: string)
    requires StripsTo(s, a, r) && (r == [] || !IsWhitespace(r[0]))
    ensures r == [] <==> forall i :: 0 <= i < |s| ==> IsWhitespace(s[i])
  {
    if r != [] {
      assert s[a] == r[0];
    }
  }

  /** The submit guard: `task.trim()` is a non-empty, hence truthy, string,
      which is so exactly when the field holds a visible character. */
  predicate Accepts(task: string)
    ensures Accepts(task) <==> exists i :: 0 <= i < |task| && !IsWhitespace(task[i])
  {
    Trim(task) != []
  }

  /** The form component; `task` is the text field's state. */
  class TodoAdd {
    var task: string

    constructor ()
      ensures task == ""
    {
      task := "";
    }

    /** The input's change handler: the field becomes the new input value. */
    method OnChange(value: string)
      modifies this
      ensures task == value
    {
      task := value;
    }

    /** The button's click handler. When the field has a visible character,
        its untrimmed text is forwarded (what is passed to `onAddTodo`) and
        the field is cleared; otherwise nothing is forwarded and the field
        keeps its text. */
    method HandClick() returns (forwarded: Option<string>)
      modifies this
      ensures forwarded.Some? <==> exists i :: 0 <= i < |old(task)| && !IsWhitespace(old(task)[i])
      ensures forwarded.Some? ==> forwarded.value == old(task) && task == ""
      ensures forwarded.None? ==> task == old(task)
    {
      if Accepts(task) {
        forwarded := Some(task);
        task := "";
      } else {
        forwarded := None;
      }
    }
  }
}
