/** Shared vocabulary of the code generator: configuration enumerations, model
    attributes, symbolic code fragments, failure wrappers and a few string helpers
    (Python's str.replace, str.split and sorted() on strings). */
module Common {

  datatype Option<T> = None | Some(value: T)

  /** Why generation of one entity aborts. */
  datatype GenError =
    | InvalidConfiguration(msg: string)     // Global.InvalidConfiguration
    | NotImplemented(msg: string)           // NotImplementedError
    | ReportedError(msg: string)            // Global._error
    | KeyError(key: string)                 // dictionary lookup of a missing template key
    | IndexError(msg: string)               // list index out of range
    | UnboundLocal(name: string)            // a local variable read before assignment
    | MissingAttribute(name: string)        // a module attribute that is not defined

  datatype Result<T> = Ok(value: T) | Err(error: GenError)

  /** The outcome of a C++ read: a value, a read outside a vector (undefined behaviour),
      or falling off the end of a function that should return a value. */
  datatype Access<T> = Value(value: T) | OutOfRange | NoReturn

  /** Hardware paradigm of the process-wide configuration. */
  datatype Paradigm = OpenMP | Cuda | OtherParadigm(name: string)

  /** Neuron or synapse kind. */
  datatype Kind = Rate | Spike | OtherKind(name: string)

  datatype Locality = Local | Semiglobal | Global

  /** 'method' of a model variable; only event-driven is inspected by the generator. */
  datatype UpdateMethod = Continuous | EventDriven

  /** One resolved attribute (parameter or variable) of a neuron or synapse description. */
  datatype Attr = Attr(name: string, ctype: string, locality: Locality, update: UpdateMethod, init: string)

  /** A generated code fragment: a concatenation of template instances and verbatim text.
      The C++ text of each template is opaque here; only which template is instantiated,
      for which name, and in which order matters. */
  datatype Piece = Tpl(key: string, arg: string) | Verbatim(text: string)
  type Fragment = seq<Piece>

  function Names(attrs: seq<Attr>): (r: seq<string>)
    ensures |r| == |attrs|
    ensures forall k :: 0 <= k < |attrs| ==> r[k] == attrs[k].name
  {
    if attrs == [] then [] else Names(attrs[..|attrs| - 1]) + [attrs[|attrs| - 1].name]
  }

  predicate Distinct<T(==)>(s: seq<T>) {
    forall i, j :: 0 <= i < j < |s| ==> s[i] != s[j]
  }

  /** The elements of `xs` without repeats, each at its first occurrence. */
  function Unique<T(==)>(xs: seq<T>): (r: seq<T>)
    ensures Distinct(r)
    ensures forall k :: 0 <= k < |r| ==> r[k] in xs
    ensures forall x :: x in xs ==> x in r
  {
    if xs == [] then []
    else
      var prev := Unique(xs[..|xs| - 1]);
      var x := xs[|xs| - 1];
      assert xs == xs[..|xs| - 1] + [x];
      if x in prev then prev else prev + [x]
  }

  /** A non-empty run of copies of one value has that value as its only element. */
  lemma UniqueOfCopies<T>(xs: seq<T>, x: T)
    requires xs != [] && forall k :: 0 <= k < |xs| ==> xs[k] == x
    ensures Unique(xs) == [x]
  {
    var r := Unique(xs);
    assert xs[0] in xs;
    assert x in r;
    assert forall k :: 0 <= k < |r| ==> r[k] == x by {
      forall k | 0 <= k < |r| ensures r[k] == x {
        assert r[k] in xs;
      }
    }
  }

  // ---------------------------------------------------------------------------
  // Host/device copies (`cudaMemcpy`)

  /** `cudaMemcpy(dst, src, n)`: the first n elements of `dst` become those of `src`. */
  function Copy<T>(dst: seq<T>, src: seq<T>, n: int): (r: seq<T>)
    requires 0 <= n <= |dst| && n <= |src|
    ensures |r| == |dst|
    ensures forall i :: 0 <= i < n ==> r[i] == src[i]
    ensures forall i :: n <= i < |dst| ==> r[i] == dst[i]
  {
    src[..n] + dst[n..]
  }

  /** Copying to the device and back leaves the host values as they were, and afterwards
      both sides agree on the copied region. */
  lemma CopyRoundTrip<T>(host: seq<T>, device: seq<T>, n: int)
    requires 0 <= n <= |host| && n <= |device|
    ensures Copy(host, Copy(device, host, n), n) == host
    ensures Copy(device, host, n)[..n] == host[..n]
  {
  }

  // ---------------------------------------------------------------------------
  // Python string operations used by the generator

  /** True when `pat` occurs in `s` at position `i`. */
  predicate OccursAt(s: string, pat: string, i: nat) {
    i + |pat| <= |s| && s[i..i + |pat|] == pat
  }

  predicate Contains(s: string, pat: string) {
    exists i :: 0 <= i <= |s| && OccursAt(s, pat, i)
  }

  /** Python's `s.replace(pat, rep)` for a non-empty `pat`: left to right, non-overlapping. */
  function Replace(s: string, pat: string, rep: string): (r: string)
    requires pat != []
    decreases |s|
  {
    if |s| < |pat| then s
    else if s[..|pat|] == pat then rep + Replace(s[|pat|..], pat, rep)
    else [s[0]] + Replace(s[1..], pat, rep)
  }

  /** Replacing a pattern that does not occur leaves the text unchanged. */
  lemma {:induction false} ReplaceAbsent(s: string, pat: string, rep: string)
    requires pat != []
    requires !Contains(s, pat)
    ensures Replace(s, pat, rep) == s
    decreases |s|
  {
    if |s| < |pat| {
    } else {
      assert !OccursAt(s, pat, 0);
      assert s[..|pat|] != pat;
      if !Contains(s[1..], pat) {
        ReplaceAbsent(s[1..], pat, rep);
      } else {
        var i :| 0 <= i <= |s[1..]| && OccursAt(s[1..], pat, i);
        assert s[1..][i..i + |pat|] == s[i + 1..i + 1 + |pat|];
        assert OccursAt(s, pat, i + 1);
        assert false;
      }
      assert s == [s[0]] + s[1..];
    }
  }

  /** A text none of whose characters starts the pattern is left unchanged. */
  lemma {:induction false} ReplaceNoStart(s: string, pat: string, rep: string)
    requires pat != []
    requires pat[0] !in s
    ensures Replace(s, pat, rep) == s
    decreases |s|
  {
    if |s| >= |pat| {
      assert s[..|pat|][0] == s[0];
      assert pat[0] !in s[1..];
      ReplaceNoStart(s[1..], pat, rep);
      assert [s[0]] + s[1..] == s;
    }
  }

  /** Replacement passes over a prefix in which the pattern cannot start. */
  lemma {:induction false} ReplaceAfterPrefix(p: string, s: string, pat: string, rep: string)
    requires pat != []
    requires pat[0] !in p
    ensures Replace(p + s, pat, rep) == p + Replace(s, pat, rep)
    decreases |p|
  {
    if p == [] {
      assert p + s == s;
    } else {
      var t := p + s;
      if |t| < |pat| {
        assert |s| < |pat| && Replace(s, pat, rep) == s;
      } else {
        assert t[..|pat|][0] == p[0] && p[0] != pat[0];
        assert t[..|pat|] != pat;
        assert t[0] == p[0];
        assert t[1..] == p[1..] + s;
        assert pat[0] !in p[1..];
        ReplaceAfterPrefix(p[1..], s, pat, rep);
        assert Replace(t, pat, rep) == [p[0]] + Replace(p[1..] + s, pat, rep);
        assert [p[0]] + p[1..] == p;
      }
    }
  }

  /** An occurrence at the front is replaced and the rest is processed after it. */
  lemma ReplaceAtFront(pat: string, s: string, rep: string)
    requires pat != []
    ensures Replace(pat + s, pat, rep) == rep + Replace(s, pat, rep)
  {
    assert (pat + s)[..|pat|] == pat;
    assert (pat + s)[|pat|..] == s;
  }

  /** A pattern holding a character the text lacks is never replaced. */
  lemma ReplaceMissingChar(s: string, pat: string, rep: string, j: nat)
    requires pat != [] && j < |pat| && pat[j] !in s
    ensures Replace(s, pat, rep) == s
  {
    forall i | 0 <= i <= |s|
      ensures !OccursAt(s, pat, i)
    {
      if i + |pat| <= |s| {
        assert s[i..i + |pat|][j] == s[i + j];
        assert s[i + j] in s;
      }
    }
    ReplaceAbsent(s, pat, rep);
  }

  /** `seps[0] + t + seps[1] + t + … + seps[n]`: `t` between each two pieces. */
  function Interleave(seps: seq<string>, t: string): string
    requires |seps| >= 1
  {
    if |seps| == 1 then seps[0] else seps[0] + t + Interleave(seps[1..], t)
  }

  /** When the pattern cannot start inside any piece, replacing it replaces exactly the
      occurrences placed between the pieces. */
  lemma {:induction false} ReplaceInterleave(seps: seq<string>, t: string, u: string)
    requires |seps| >= 1 && t != []
    requires forall k :: 0 <= k < |seps| ==> t[0] !in seps[k]
    ensures Replace(Interleave(seps, t), t, u) == Interleave(seps, u)
  {
    if |seps| == 1 {
      ReplaceNoStart(seps[0], t, u);
    } else {
      var rest := Interleave(seps[1..], t);
      assert seps[0] + t + rest == seps[0] + (t + rest);
      ReplaceAfterPrefix(seps[0], t + rest, t, u);
      ReplaceAtFront(t, rest, u);
      ReplaceInterleave(seps[1..], t, u);
      assert seps[0] + (u + Interleave(seps[1..], u)) == seps[0] + u + Interleave(seps[1..], u);
    }
  }

  /** Python's `s.split(sep)` for a single-character separator. */
  function Split(s: string, sep: char): (r: seq<string>)
    ensures |r| >= 1
    ensures forall k :: 0 <= k < |r| ==> sep !in r[k]
    decreases |s|
  {
    if s == [] then [[]]
    else
      var rest := Split(s[1..], sep);
      if s[0] == sep then [[]] + rest
      else [[s[0]] + rest[0]] + rest[1..]
  }

  /** Splitting a text without separators gives the text itself as the one field. */
  lemma {:induction false} SplitNoSeparator(s: string, sep: char)
    requires sep !in s
    ensures Split(s, sep) == [s]
    decreases |s|
  {
    if s != [] {
      assert sep !in s[1..];
      SplitNoSeparator(s[1..], sep);
      assert [s[0]] + s[1..] == s;
    }
  }

  /** Splitting `a + [sep] + b` where `a` has no separator gives `a` followed by the fields of `b`. */
  lemma {:induction false} SplitAtSeparator(a: string, b: string, sep: char)
    requires sep !in a
    ensures Split(a + [sep] + b, sep) == [a] + Split(b, sep)
    decreases |a|
  {
    if a == [] {
      assert a + [sep] + b == [sep] + b;
      assert ([sep] + b)[1..] == b;
    } else {
      var s := a + [sep] + b;
      assert s[0] == a[0];
      assert s[1..] == a[1..] + [sep] + b;
      assert sep !in a[1..];
      SplitAtSeparator(a[1..], b, sep);
      assert [a[0]] + a[1..] == a;
    }
  }

  /** Python's `str(n)` for a natural number: its decimal digits. */
  function NatToString(n: nat): (r: string)
    ensures |r| >= 1
    ensures forall k :: 0 <= k < |r| ==> '0' <= r[k] <= '9'
    decreases n
  {
    var digit := ['0' + (n % 10) as char];
    if n < 10 then digit else NatToString(n / 10) + digit
  }

  // ---------------------------------------------------------------------------
  // Python's sorted() on strings: lexicographic order on code points

  predicate LexLe(a: string, b: string)
    decreases |a|
  {
    if a == [] then true
    else if b == [] then false
    else if a[0] != b[0] then a[0] < b[0]
    else LexLe(a[1..], b[1..])
  }

  lemma {:induction false} LexLeTotal(a: string, b: string)
    ensures LexLe(a, b) || LexLe(b, a)
    decreases |a|
  {
    if a != [] && b != [] && a[0] == b[0] {
      LexLeTotal(a[1..], b[1..]);
    }
  }

  lemma {:induction false} LexLeTransitive(a: string, b: string, c: string)
    requires LexLe(a, b) && LexLe(b, c)
    ensures LexLe(a, c)
    decreases |a|
  {
    if a != [] && b != [] && c != [] && a[0] == b[0] && b[0] == c[0] {
      LexLeTransitive(a[1..], b[1..], c[1..]);
    }
  }

  predicate SortedStrings(s: seq<string>) {
    forall i, j :: 0 <= i < j < |s| ==> LexLe(s[i], s[j])
  }

  /** Inserts `x` into an ascending list, after every element not greater than it. */
  function Insert(x: string, s: seq<string>): (r: seq<string>)
    requires SortedStrings(s)
    ensures SortedStrings(r)
    ensures multiset(r) == multiset(s) + multiset{x}
    decreases |s|
  {
    if s == [] then [x]
    else if LexLe(s[0], x) then
      var rest := Insert(x, s[1..]);
      assert s == [s[0]] + s[1..];
      InsertAfterHead(s, x, rest);
      [s[0]] + rest
    else
      InsertBeforeHead(s, x);
      [x] + s
  }

  /** A sorted list is its head followed by elements none of which is below it. */
  lemma SortedHead(s: seq<string>)
    requires SortedStrings(s) && s != []
    ensures SortedStrings(s[1..])
    ensures forall y :: y in s[1..] ==> LexLe(s[0], y)
  {
    forall y | y in s[1..]
      ensures LexLe(s[0], y)
    {
      var m :| 0 <= m < |s[1..]| && s[1..][m] == y;
      assert s[m + 1] == y;
    }
  }

  /** Prepending an element not above any of a sorted list keeps it sorted. */
  lemma ConsSorted(h: string, t: seq<string>)
    requires SortedStrings(t) && forall y :: y in t ==> LexLe(h, y)
    ensures SortedStrings([h] + t)
  {
    var u := [h] + t;
    forall i, j | 0 <= i < j < |u|
      ensures LexLe(u[i], u[j])
    {
      assert u[j] == t[j - 1];
      if i > 0 {
        assert u[i] == t[i - 1];
      }
    }
  }

  lemma InsertAfterHead(s: seq<string>, x: string, rest: seq<string>)
    requires SortedStrings(s) && s != [] && LexLe(s[0], x)
    requires SortedStrings(rest) && multiset(rest) == multiset(s[1..]) + multiset{x}
    ensures SortedStrings([s[0]] + rest)
  {
    SortedHead(s);
    forall y | y in rest
      ensures LexLe(s[0], y)
    {
      assert y in multiset(rest);
      if y != x {
        assert y in multiset(s[1..]);
      }
    }
    ConsSorted(s[0], rest);
  }

  lemma InsertBeforeHead(s: seq<string>, x: string)
    requires SortedStrings(s) && s != [] && !LexLe(s[0], x)
    ensures SortedStrings([x] + s)
  {
    LexLeTotal(s[0], x);
    SortedHead(s);
    assert s == [s[0]] + s[1..];
    forall y | y in s
      ensures LexLe(x, y)
    {
      if y != s[0] {
        assert y in s[1..];
        LexLeTransitive(x, s[0], y);
      }
    }
    ConsSorted(x, s);
  }

  /** Python's sorted() on a list of strings. */
  function SortStrings(s: seq<string>): (r: seq<string>)
    ensures SortedStrings(r)
    ensures multiset(r) == multiset(s)
    ensures |r| == |s|
  {
    if s == [] then []
    else
      assert s == s[..|s| - 1] + [s[|s| - 1]];
      var r := Insert(s[|s| - 1], SortStrings(s[..|s| - 1]));
      assert |r| == |multiset(r)| == |multiset(s)| == |s|;
      r
  }
}
