/**
 * Values shared by the whole model: failure-compatible wrappers standing in for
 * Java's null and exceptions, the exception codes an ExceptionReport carries,
 * and the java.lang.String operations the processes rely on.
 */
module Common {

  datatype Option<+T> = None | Some(value: T)

  datatype Result<+T, +E> = Success(value: T) | Failure(error: E)

  /** A java.io.IOException with its message. */
  datatype IOException = IOException(message: string)

  /** The exception code of an ExceptionReport thrown back to the WPS client. */
  datatype ExceptionCode = InvalidArgs | Io | Internal {
    function Name(): (s: string)
      ensures |s| > 0
    {
      match this
      case InvalidArgs => "invalid-args"
      case Io => "io"
      case Internal => "internal"
    }
  }

  /**
   * How a process run ends when it does not succeed: an ExceptionReport with
   * its code, or the one unchecked exception, a NullPointerException, that
   * nothing in the process catches.
   */
  datatype Fault = Report(code: ExceptionCode) | NullPointerException

  predicate EndsWith(s: string, suffix: string)
  {
    |suffix| <= |s| && s[|s| - |suffix|..] == suffix
  }

  /** String.join(sep, xs): the elements of xs with sep between neighbours. */
  function Join(sep: string, xs: seq<string>): string
  {
    if |xs| == 0 then ""
    else if |xs| == 1 then xs[0]
    else xs[0] + sep + Join(sep, xs[1..])
  }

  /**
   * Cuts s at every occurrence of c, keeping empty pieces (so there is always
   * one piece more than there are separators). This is the reference inverse
   * of Join; it is not Java's String.split, which drops trailing empty pieces.
   */
  function Split(s: string, c: char): (pieces: seq<string>)
    ensures |pieces| >= 1
    ensures forall i :: 0 <= i < |pieces| ==> c !in pieces[i]
  {
    if |s| == 0 then [""]
    else if s[0] == c then [""] + Split(s[1..], c)
    else
      var rest := Split(s[1..], c);
      [[s[0]] + rest[0]] + rest[1..]
  }

  /**
   * Concatenation associates. Stated once over plain sequences, so that a
   * proof can regroup an event trace or an argument vector without looking
   * inside its parts.
   */
  lemma AppendAssociates<T>(a: seq<T>, b: seq<T>, c: seq<T>)
    ensures (a + b) + c == a + (b + c)
  {
  }

  /** A piece without the separator is cut off whole. */
  lemma {:induction false} SplitPiece(x: string, c: char, tail: string)
    requires c !in x
    ensures Split(x, c) == [x]
    ensures Split(x + [c] + tail, c) == [x] + Split(tail, c)
  {
    if |x| > 0 {
      SplitPiece(x[1..], c, tail);
      assert x == [x[0]] + x[1..];
      assert (x + [c] + tail)[1..] == x[1..] + [c] + tail;
    } else {
      assert x + [c] + tail == [c] + tail;
    }
  }

  /** Splitting a non-empty join at a separator no element contains gives the elements back. */
  lemma {:induction false} SplitJoin(xs: seq<string>, c: char)
    requires |xs| >= 1
    requires forall i :: 0 <= i < |xs| ==> c !in xs[i]
    ensures Split(Join([c], xs), c) == xs
  {
    if |xs| == 1 {
      SplitPiece(xs[0], c, "");
    } else {
      SplitJoin(xs[1..], c);
      SplitPiece(xs[0], c, Join([c], xs[1..]));
      assert [xs[0]] + xs[1..] == xs;
    }
  }

  /** The non-empty pieces of a '/'-separated path string, as the Unix path parser keeps them. */
  function Components(s: string): (p: seq<string>)
    ensures forall i :: 0 <= i < |p| ==> p[i] != "" && '/' !in p[i]
  {
    NonEmpty(Split(s, '/'))
  }

  function NonEmpty(pieces: seq<string>): (p: seq<string>)
    ensures forall i :: 0 <= i < |p| ==> p[i] != "" && p[i] in pieces
  {
    if pieces == [] then []
    else if pieces[0] == "" then NonEmpty(pieces[1..])
    else [pieces[0]] + NonEmpty(pieces[1..])
  }

  /** Dropping empty pieces keeps a sequence that has none. */
  lemma {:induction false} NonEmptyKeeps(xs: seq<string>)
    requires forall i :: 0 <= i < |xs| ==> xs[i] != ""
    ensures NonEmpty(xs) == xs
  {
    if xs != [] {
      NonEmptyKeeps(xs[1..]);
      assert [xs[0]] + xs[1..] == xs;
    }
  }

  /** Parsing a path drops exactly its empty pieces. */
  lemma ComponentsOfJoin(zs: seq<string>)
    requires |zs| >= 1
    requires forall i :: 0 <= i < |zs| ==> '/' !in zs[i]
    ensures Components(Join("/", zs)) == NonEmpty(zs)
  {
    SplitJoin(zs, '/');
  }

  /** Path.isAbsolute of a parsed path string: it starts at the root. */
  predicate IsAbsolute(s: string)
  {
    |s| > 0 && s[0] == '/'
  }

  /** Path.toString of a Unix path: its components joined by '/', after a leading '/' when it is absolute. */
  function PathString(absolute: bool, components: seq<string>): string
  {
    (if absolute then "/" else "") + Join("/", components)
  }

  /** Printing a parsed path and parsing the text again gives the same path back. */
  lemma ParsePathString(absolute: bool, components: seq<string>)
    requires forall i :: 0 <= i < |components| ==> components[i] != "" && '/' !in components[i]
    ensures Components(PathString(absolute, components)) == components
    ensures IsAbsolute(PathString(absolute, components)) <==> absolute
  {
    var s := PathString(absolute, components);
    if components == [] {
      assert NonEmpty([""]) == [];
      if absolute {
        assert s == "/";
        assert Split(s, '/') == [""] + Split("", '/');
      } else {
        assert s == "";
      }
    } else if absolute {
      var zs := [""] + components;
      assert zs[1..] == components;
      assert s == Join("/", zs);
      ComponentsOfJoin(zs);
      NonEmptyKeeps(components);
    } else {
      assert s == Join("/", components);
      ComponentsOfJoin(components);
      NonEmptyKeeps(components);
      assert s[0] == components[0][0];
    }
  }

  /** Joining with one more element appends the separator and that element. */
  lemma {:induction false} JoinSnoc(sep: string, xs: seq<string>, c: string)
    ensures Join(sep, xs + [c]) == if xs == [] then c else Join(sep, xs) + sep + c
  {
    if |xs| == 1 {
      assert (xs + [c])[1..] == [c];
    } else if |xs| > 1 {
      assert (xs + [c])[1..] == xs[1..] + [c];
      JoinSnoc(sep, xs[1..], c);
      AppendAssociates(xs[0] + sep, Join(sep, xs[1..]) + sep, c);
      AppendAssociates(xs[0] + sep, Join(sep, xs[1..]), sep);
    }
  }
}
