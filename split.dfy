/** Splitting a frame on the field separator `|`.

    Both sides of the chat split frames, with different library semantics:
    - the browser uses JavaScript's `s.split('|')`, which keeps every field,
      trailing empty ones included (`SplitAll`);
    - the server uses Java's `s.split("\\|")`, whose limit of 0 drops the
      trailing empty fields, and which returns the input unchanged when the
      separator does not occur at all (`JavaSplit`). */
module Split {

  const Bar: char := '|'

  /** Joins fields with `|` between them: the inverse of `SplitAll`. */
  function JoinFields(fields: seq<string>): (s: string)
    requires |fields| >= 1
    decreases |fields|
  {
    if |fields| == 1 then fields[0] else fields[0] + ([Bar] + JoinFields(fields[1..]))
  }

  /** JavaScript `s.split('|')`: every field, empty ones included. */
  function SplitAll(s: string): (fields: seq<string>)
    ensures |fields| == multiset(s)[Bar] + 1
    ensures forall i :: 0 <= i < |fields| ==> Bar !in fields[i]
    decreases |s|
  {
    if s == [] then [""]
    else
      var rest := SplitAll(s[1..]);
      assert s == [s[0]] + s[1..];
      if s[0] == Bar then [""] + rest
      else [[s[0]] + rest[0]] + rest[1..]
  }

  /** Drops the empty fields at the end, as Java's `split` with limit 0 does. */
  function StripTrailingEmpty(fields: seq<string>): (r: seq<string>)
    ensures |r| <= |fields| && r == fields[..|r|]
    ensures r != [] ==> r[|r| - 1] != ""
    ensures forall i :: |r| <= i < |fields| ==> fields[i] == ""
    decreases |fields|
  {
    if fields == [] then []
    else if fields[|fields| - 1] == "" then StripTrailingEmpty(fields[..|fields| - 1])
    else fields
  }

  /** Java `s.split("\\|")`: with no separator the input is the one field
      (so `""` gives `[""]`); otherwise every field but the trailing empty
      ones (so `"|"` gives `[]`). */
  function JavaSplit(s: string): (fields: seq<string>)
    ensures |fields| <= multiset(s)[Bar] + 1
    ensures forall i :: 0 <= i < |fields| ==> Bar !in fields[i]
  {
    if Bar !in s then [s] else StripTrailingEmpty(SplitAll(s))
  }

  /** A string without the separator is a single field. */
  lemma {:induction false} SplitAllNoBar(a: string)
    requires Bar !in a
    ensures SplitAll(a) == [a]
    decreases |a|
  {
    if a != [] {
      assert Bar !in a[1..];
      SplitAllNoBar(a[1..]);
      assert [a[0]] + a[1..] == a;
    }
  }

  /** The first field ends at the first separator. */
  lemma {:induction false} SplitAllCons(a: string, rest: string)
    requires Bar !in a
    ensures SplitAll(a + ([Bar] + rest)) == [a] + SplitAll(rest)
    decreases |a|
  {
    var s := a + ([Bar] + rest);
    if a == [] {
      assert s[1..] == rest;
    } else {
      assert s[1..] == a[1..] + ([Bar] + rest);
      SplitAllCons(a[1..], rest);
      assert [a[0]] + a[1..] == a;
    }
  }

  /** Splitting joined fields gives the fields back, provided none of them
      contains the separator. */
  lemma {:induction false} SplitJoin(fields: seq<string>)
    requires |fields| >= 1
    requires forall i :: 0 <= i < |fields| ==> Bar !in fields[i]
    ensures SplitAll(JoinFields(fields)) == fields
    decreases |fields|
  {
    if |fields| == 1 {
      SplitAllNoBar(fields[0]);
    } else {
      var tail := fields[1..];
      forall i | 0 <= i < |tail|
        ensures Bar !in tail[i]
      {
        assert tail[i] == fields[i + 1];
      }
      SplitJoin(tail);
      assert JoinFields(fields) == fields[0] + ([Bar] + JoinFields(tail));
      SplitAllCons(fields[0], JoinFields(tail));
      assert [fields[0]] + tail == fields;
    }
  }

  lemma JoinFieldsCons(f: string, rest: seq<string>)
    requires |rest| >= 1
    ensures JoinFields([f] + rest) == f + ([Bar] + JoinFields(rest))
  {
    assert ([f] + rest)[1..] == rest;
  }

  /** Prepending a character to the first field prepends it to the join. */
  lemma JoinFieldsPrepend(c: char, fields: seq<string>)
    requires |fields| >= 1
    ensures JoinFields([[c] + fields[0]] + fields[1..]) == [c] + JoinFields(fields)
  {
    var first := [c] + fields[0];
    if |fields| == 1 {
      assert [first] + fields[1..] == [first];
    } else {
      var tail := fields[1..];
      JoinFieldsCons(first, tail);
      JoinFieldsCons(fields[0], tail);
      assert [fields[0]] + tail == fields;
      Assoc([c], fields[0], [Bar] + JoinFields(tail));
    }
  }

  lemma Assoc<T>(a: seq<T>, b: seq<T>, d: seq<T>)
    ensures a + b + d == a + (b + d)
  {
  }

  /** Joining the fields of a split gives the string back: splitting loses
      nothing but the separators. */
  lemma {:induction false} JoinSplit(s: string)
    ensures JoinFields(SplitAll(s)) == s
    decreases |s|
  {
    if s != [] {
      var rest := SplitAll(s[1..]);
      JoinSplit(s[1..]);
      assert [s[0]] + s[1..] == s;
      if s[0] == Bar {
        assert SplitAll(s) == [""] + rest;
        JoinFieldsCons("", rest);
        assert "" + ([Bar] + s[1..]) == [Bar] + s[1..];
      } else {
        assert SplitAll(s) == [[s[0]] + rest[0]] + rest[1..];
        JoinFieldsPrepend(s[0], rest);
      }
    }
  }

  /** Java's split of two or more joined fields, none containing the
      separator, is those fields less the trailing empty ones. */
  lemma JavaSplitOfJoin(fields: seq<string>)
    requires |fields| >= 2
    requires forall i :: 0 <= i < |fields| ==> Bar !in fields[i]
    ensures JavaSplit(JoinFields(fields)) == StripTrailingEmpty(fields)
  {
    SplitJoin(fields);
    assert JoinFields(fields) == fields[0] + ([Bar] + JoinFields(fields[1..]));
    assert JoinFields(fields)[|fields[0]|] == Bar;
  }

  /** Java's split returns the joined fields unchanged when there are at
      least two of them, none contains the separator and the last is not
      empty. */
  lemma JavaSplitJoin(fields: seq<string>)
    requires |fields| >= 2 && fields[|fields| - 1] != ""
    requires forall i :: 0 <= i < |fields| ==> Bar !in fields[i]
    ensures JavaSplit(JoinFields(fields)) == fields
  {
    JavaSplitOfJoin(fields);
  }

  /** Java's split yields the leading fields JavaScript's split yields,
      and only empty fields were dropped; when the payload holds a bar,
      every trailing empty field is dropped, so a payload made only of bars
      yields no field at all; a payload without a bar is the one field. */
  lemma JavaSplitIsPrefix(s: string)
    ensures |JavaSplit(s)| <= |SplitAll(s)|
    ensures JavaSplit(s) == SplitAll(s)[..|JavaSplit(s)|]
    ensures forall i :: |JavaSplit(s)| <= i < |SplitAll(s)| ==> SplitAll(s)[i] == ""
    ensures Bar in s ==> JavaSplit(s) == [] || JavaSplit(s)[|JavaSplit(s)| - 1] != ""
    ensures Bar in s && (forall i :: 0 <= i < |s| ==> s[i] == Bar) ==> JavaSplit(s) == []
    ensures Bar !in s ==> JavaSplit(s) == [s]
  {
    if Bar !in s {
      SplitAllNoBar(s);
    } else if forall i :: 0 <= i < |s| ==> s[i] == Bar {
      OnlyBarsSplitEmpty(s);
    }
  }

  /** Splitting a string made only of bars gives nothing but empty fields. */
  lemma {:induction false} OnlyBarsSplitEmpty(s: string)
    requires forall i :: 0 <= i < |s| ==> s[i] == Bar
    ensures forall i :: 0 <= i < |SplitAll(s)| ==> SplitAll(s)[i] == ""
    decreases |s|
  {
    if s != [] {
      OnlyBarsSplitEmpty(s[1..]);
      assert SplitAll(s) == [""] + SplitAll(s[1..]);
    }
  }
}
