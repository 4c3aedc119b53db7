/** Splitting paths into elements: `path_element_count` and `path_element_get`, with the C string
    functions that names go through. */
module Path {
  import opened Common

  const SLASH: Byte := 47
  const FILENAME_MAX: nat := 256

  /** A name cut to fit a buffer of `FILENAME_MAX` bytes with its terminator. */
  function Cut(name: CString): (r: CString)
    ensures r <= name
  {
    if |name| < FILENAME_MAX then name else name[..FILENAME_MAX - 1]
  }

  /** Up to 255 bytes of a name are kept. */
  lemma {:induction false} CutKeeps(name: CString)
    ensures Cut(name) == if |name| <= 255 then name else name[..255]
  {
  }

  /** The bytes up to the next slash, and what follows them. */
  function FirstWord(s: CString): (w: CString)
    ensures SLASH !in w && w <= s
  {
    if s == [] || s[0] == SLASH then [] else [s[0]] + FirstWord(s[1..])
  }

  function AfterWord(s: CString): (r: CString)
    ensures |r| <= |s|
    ensures s != [] && s[0] != SLASH ==> |r| < |s|
  {
    if s == [] || s[0] == SLASH then s else AfterWord(s[1..])
  }

  /** The elements of a path: its maximal runs of bytes other than slashes. */
  function Elements(s: CString): (e: seq<CString>)
    ensures forall i :: 0 <= i < |e| ==> e[i] != [] && SLASH !in e[i]
    decreases |s|
  {
    if s == [] then []
    else if s[0] == SLASH then Elements(s[1..])
    else [FirstWord(s)] + Elements(AfterWord(s))
  }

  /** The elements still to come at a scanner that is, or is not, between elements. */
  function Rest(s: CString, separator: bool): seq<CString> {
    if separator then Elements(s) else Elements(AfterWord(s))
  }

  // ---------- Splitting ----------

  /** What comes after a slash is split on its own. */
  lemma {:induction false} WordsApart(a: CString, b: CString)
    ensures FirstWord(a + [SLASH] + b) == FirstWord(a)
    ensures AfterWord(a + [SLASH] + b) == AfterWord(a) + [SLASH] + b
  {
    var s := a + [SLASH] + b;
    if a != [] && a[0] != SLASH {
      assert s[1..] == a[1..] + [SLASH] + b;
      WordsApart(a[1..], b);
    }
  }

  /** With the next lemma, what splitting means for every string: a slash separates, and a string without one
      is an element of its own unless it is empty. */
  lemma {:induction false} SlashSeparates(a: CString, b: CString)
    ensures Elements(a + [SLASH] + b) == Elements(a) + Elements(b)
    decreases |a|
  {
    var s := a + [SLASH] + b;
    if a == [] {
      assert s[1..] == b;
    } else if a[0] == SLASH {
      assert s[1..] == a[1..] + [SLASH] + b;
      SlashSeparates(a[1..], b);
    } else {
      WordsApart(a, b);
      SlashSeparates(AfterWord(a), b);
      JoinsAssociate([FirstWord(a)], Elements(AfterWord(a)), Elements(b));
    }
  }

  lemma {:induction false} WholeWord(w: CString)
    requires SLASH !in w
    ensures FirstWord(w) == w && AfterWord(w) == []
  {
    if w != [] {
      WholeWord(w[1..]);
    }
  }

  lemma {:induction false} WordIsElement(w: CString)
    requires SLASH !in w
    ensures Elements(w) == if w == [] then [] else [w]
  {
    WholeWord(w);
  }

  function Slashes(n: nat): CString {
    if n == 0 then [] else [SLASH] + Slashes(n - 1)
  }

  /** Slashes in front of a path and behind it make no difference. */
  lemma {:induction false} OuterSlashes(m: nat, s: CString, n: nat)
    ensures Elements(Slashes(m) + s + Slashes(n)) == Elements(s)
    decreases m + n
  {
    var t: CString := Slashes(m) + s + Slashes(n);
    if m > 0 {
      assert t == [] + [SLASH] + (Slashes(m - 1) + s + Slashes(n));
      SlashSeparates([], Slashes(m - 1) + s + Slashes(n));
      OuterSlashes(m - 1, s, n);
    } else if n > 0 {
      assert t == s + [SLASH] + Slashes(n - 1);
      SlashSeparates(s, Slashes(n - 1));
      OuterSlashes(0, [], n - 1);
      assert Slashes(0) + [] + Slashes(n - 1) == Slashes(n - 1);
      assert Elements(s) + [] == Elements(s);
    } else {
      assert t == s;
    }
  }

  // ---------- Joining ----------

  function Join(elements: seq<CString>): CString {
    if elements == [] then [] else [SLASH] + elements[0] + Join(elements[1..])
  }

  lemma {:induction false} WordThen(w: CString, rest: CString)
    requires SLASH !in w && (rest == [] || rest[0] == SLASH)
    ensures FirstWord(w + rest) == w && AfterWord(w + rest) == rest
  {
    if w == [] {
      assert w + rest == rest;
    } else {
      assert (w + rest)[1..] == w[1..] + rest;
      WordThen(w[1..], rest);
    }
  }

  lemma {:induction false} FirstElement(w: CString, rest: CString)
    requires w != [] && SLASH !in w && (rest == [] || rest[0] == SLASH)
    ensures Elements([SLASH] + w + rest) == [w] + Elements(rest)
  {
    WordThen(w, rest);
    assert ([SLASH] + w + rest)[1..] == w + rest;
    assert (w + rest)[0] == w[0] != SLASH;
  }

  /** Splitting inverts joining. */
  lemma {:induction false} ElementsOfJoin(elements: seq<CString>)
    requires forall i :: 0 <= i < |elements| ==> elements[i] != [] && SLASH !in elements[i]
    ensures Elements(Join(elements)) == elements
  {
    if elements != [] {
      FirstElement(elements[0], Join(elements[1..]));
      ElementsOfJoin(elements[1..]);
    }
  }

  // ---------- The scanners ----------

  method ElementCount(path: CString) returns (count: nat)
    ensures count == |Elements(path)|
  {
    count := 0;
    var separator := true;
    var i := 0;
    while i < |path|
      invariant i <= |path|
      invariant count + |Rest(path[i..], separator)| == |Elements(path)|
    {
      assert path[i..][1..] == path[i + 1..];
      if path[i] == SLASH {
        separator := true;
      } else {
        if separator {
          count := count + 1;
        }
        separator := false;
      }
      i := i + 1;
    }
  }

  /** The first word is what stands before the first slash. */
  lemma {:induction false} FirstWordIs(s: CString)
    ensures FirstWord(s) == s[..|FirstWord(s)|]
    ensures |FirstWord(s)| < |s| ==> s[|FirstWord(s)|] == SLASH
  {
    if s != [] && s[0] != SLASH {
      FirstWordIs(s[1..]);
    }
  }

  /** A byte belongs to the first word or ends it. */
  lemma {:induction false} WordGoesOn(s: CString, j: nat)
    requires j <= |FirstWord(s)|
    ensures j < |FirstWord(s)| <==> j < |s| && s[j] != SLASH
    ensures j < |FirstWord(s)| ==> FirstWord(s)[..j + 1] == FirstWord(s)[..j] + [s[j]]
  {
    FirstWordIs(s);
    if j < |FirstWord(s)| {
      assert FirstWord(s)[j] == s[j];
    }
  }

  /** The copying loop of `path_element_get`: the word at `i`, cut to the buffer. */
  method CopyWord(path: CString, i: nat) returns (buff: CString)
    requires i <= |path|
    ensures buff == Cut(FirstWord(path[i..]))
  {
    ghost var rest: CString := path[i..];
    ghost var word := FirstWord(rest);
    var copied: seq<Byte> := [];
    var j := 0;
    while j < FILENAME_MAX - 1
      invariant j <= FILENAME_MAX - 1 && j <= |word| && copied == word[..j]
    {
      WordGoesOn(rest, j);
      if i + j == |path| || path[i + j] == SLASH {
        break;
      }
      copied := copied + [path[i + j]];
      j := j + 1;
    }
    assert j < FILENAME_MAX - 1 ==> j == |word|;
    buff := copied;
  }

  method ElementGet(path: CString, index: nat) returns (element: Option<CString>)
    ensures element == if index < |Elements(path)| then Some(Cut(Elements(path)[index])) else None
  {
    var count := 0;
    var separator := true;
    var i := 0;
    while i < |path|
      invariant i <= |path| && count <= index
      invariant count <= |Elements(path)| && Elements(path)[count..] == Rest(path[i..], separator)
    {
      assert path[i..][1..] == path[i + 1..];
      if path[i] == SLASH {
        separator := true;
      } else {
        if separator {
          if count == index {
            var word := CopyWord(path, i);
            return Some(word);
          }
          count := count + 1;
        }
        separator := false;
      }
      i := i + 1;
    }
    return None;
  }

  // ---------- C strings ----------

  /** `str_equal` compares the first bytes before it looks for an end: one string must not be empty. */
  method StrEqual(a: CString, b: CString) returns (equal: bool)
    requires a != [] || b != []
    ensures equal <==> a == b
  {
    if At(a, 0) != At(b, 0) {
      return false;
    }
    var i := 1;
    while i < |a| || i < |b|
      invariant 1 <= i <= |a| && i <= |b| && a[..i] == b[..i]
      decreases |a| - i
    {
      if At(a, i) != At(b, i) {
        return false;
      }
      i := i + 1;
    }
    return true;
  }

  /** `str_cpy_n` into a buffer of `n` bytes. */
  method StrCpyN(src: CString, n: nat) returns (dest: CString)
    requires n > 0
    ensures dest == if |src| < n then src else src[..n - 1]
  {
    dest := [];
    var i := 0;
    while i < |src| && i + 1 < n
      invariant i <= |src| && i < n && dest == src[..i]
    {
      dest := dest + [src[i]];
      i := i + 1;
    }
  }
}
