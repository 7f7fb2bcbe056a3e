/** How a file system's object path travels through Java serialisation
    (`SerializeUtils`): a count of names followed by the names. */
module PathSerialization {
  import opened Common
  import opened Paths

  /** A value in an object stream: a primitive `int` or a `String` object. */
  datatype StreamValue = IntValue(n: int) | StringValue(s: string)

  /** Why reading a path back can fail: the stream ends early, it holds a
      value of the other kind, or the count is negative (the array of the
      remaining names cannot be allocated). */
  datatype StreamError = EndOfStream | WrongKind | NegativeArraySize

  /** The values that `serializePath` writes: the count 0 for a null path,
      and otherwise the number of names followed by each name, in order. */
  function Encoding(path: Option<Path>): (vs: seq<StreamValue>)
    ensures path.None? ==> vs == [IntValue(0)]
    ensures path.Some? ==> |vs| == |path.value| + 1 && vs[0] == IntValue(|path.value|)
    ensures path.Some? ==> forall i :: 0 <= i < |path.value| ==> vs[i + 1] == StringValue(path.value[i])
  {
    match path
    case None => [IntValue(0)]
    case Some(p) => [IntValue(|p|)] + Strings(p)
  }

  /** The names written one after the other as string objects. */
  function Strings(names: seq<string>): seq<StreamValue>
  {
    seq(|names|, i requires 0 <= i < |names| => StringValue(names[i]))
  }

  /** Writing one more name appends its string object. */
  lemma StringsSnoc(names: seq<string>, i: nat)
    requires i < |names|
    ensures Strings(names[..i + 1]) == Strings(names[..i]) + [StringValue(names[i])]
  {
  }

  /** The first `k` values of `vs` read as strings. */
  function ReadStrings(vs: seq<StreamValue>, k: nat): (r: Result<seq<string>, StreamError>)
    ensures r.Ok? ==> |r.value| == k <= |vs|
    ensures r.Ok? ==> forall i :: 0 <= i < k ==> vs[i] == StringValue(r.value[i])
    ensures r.Err? <==> k > |vs| || exists i :: 0 <= i < k && !vs[i].StringValue?
  {
    if k == 0 then Ok([])
    else
      match ReadStrings(vs, k - 1)
      case Err(e) => Err(e)
      case Ok(init) =>
        if k - 1 >= |vs| then Err(EndOfStream)
        else if !vs[k - 1].StringValue? then Err(WrongKind)
        else Ok(init + [vs[k - 1].s])
  }

  /** What `deserializePath` reads from the values `vs` ahead in the
      stream: a count of 0 is a null path; otherwise the first name is read,
      then `count - 1` further names, and `Paths.get` builds the path from
      them. */
  function Decode(vs: seq<StreamValue>): Result<Option<Path>, StreamError>
  {
    if vs == [] then Err(EndOfStream)
    else if !vs[0].IntValue? then Err(WrongKind)
    else if vs[0].n == 0 then Ok(None)
    else if |vs| < 2 then Err(EndOfStream)
    else if !vs[1].StringValue? then Err(WrongKind)
    else if vs[0].n < 0 then Err(NegativeArraySize)
    else
      match ReadStrings(vs[2..], vs[0].n - 1)
      case Err(e) => Err(e)
      case Ok(rest) => Ok(Some(PathsGet([vs[1].s] + rest)))
  }

  /** Reading back what was written gives the same path, whatever follows
      in the stream: null stays null and a path keeps its names. */
  lemma RoundTrip(path: Option<Path>, more: seq<StreamValue>)
    requires path.Some? ==> IsPath(path.value)
    ensures Decode(Encoding(path) + more) == Ok(path)
  {
    if path.Some? {
      DecodeNames(path.value, more);
      PathsGetOfPath(path.value);
    } else {
      assert (Encoding(path) + more)[0] == IntValue(0);
    }
  }

  /** Reading back the values written for a path gives `Paths.get` of its
      names. */
  lemma DecodeNames(p: Path, more: seq<StreamValue>)
    requires p != []
    ensures Decode(Encoding(Some(p)) + more) == Ok(Some(PathsGet(p)))
  {
    var vs := Encoding(Some(p)) + more;
    assert |vs| >= 2 && vs[0] == IntValue(|p|) && vs[1] == StringValue(p[0]);
    assert ReadStrings(vs[2..], |p| - 1) == Ok(p[1..]) by {
      ReadStringsOfPrefix(vs[2..], p[1..]);
    }
    assert Decode(vs) == Ok(Some(PathsGet([p[0]] + p[1..])));
    assert [p[0]] + p[1..] == p;
  }

  /** Reading back as many strings as were written. */
  lemma {:induction false} ReadStringsOfPrefix(vs: seq<StreamValue>, names: seq<string>)
    requires |names| <= |vs|
    requires forall i :: 0 <= i < |names| ==> vs[i] == StringValue(names[i])
    ensures ReadStrings(vs, |names|) == Ok(names)
    decreases |names|
  {
    if names != [] {
      var init := names[..|names| - 1];
      ReadStringsOfPrefix(vs, init);
      assert init + [names[|names| - 1]] == names;
    }
  }

  /** `Paths.get` of a path's own names gives the path back. */
  lemma PathsGetOfPath(p: Path)
    requires IsPath(p)
    ensures PathsGet(p) == p
  {
    PathsGetOfSegments(p);
    if p != EmptyPath {
      NonEmptyOfNames(p);
    }
  }

  /** An `ObjectOutputStream`: the values written so far. */
  class ObjectOutput {
    var written: seq<StreamValue>

    constructor ()
      ensures written == []
    {
      written := [];
    }

    /** `writeInt`. */
    method WriteInt(n: int)
      modifies this
      ensures written == old(written) + [IntValue(n)]
    {
      written := written + [IntValue(n)];
    }

    /** `writeObject` of a string. */
    method WriteString(s: string)
      modifies this
      ensures written == old(written) + [StringValue(s)]
    {
      written := written + [StringValue(s)];
    }
  }

  /** An `ObjectInputStream`: the values it holds and how many were read. */
  class ObjectInput {
    const values: seq<StreamValue>
    var position: nat

    predicate Valid()
      reads this
    {
      position <= |values|
    }

    /** The values not read yet. */
    function Ahead(): seq<StreamValue>
      requires Valid()
      reads this
    {
      values[position..]
    }

    constructor (values: seq<StreamValue>)
      ensures Valid() && this.values == values && position == 0
    {
      this.values := values;
      position := 0;
    }

    /** `readInt`: the next value, which must be an `int`. */
    method ReadInt() returns (r: Result<int, StreamError>)
      requires Valid()
      modifies this
      ensures Valid()
      ensures old(position) == |values| ==> r == Err(EndOfStream)
      ensures old(position) < |values| && !values[old(position)].IntValue? ==> r == Err(WrongKind)
      ensures old(position) < |values| && values[old(position)].IntValue? ==>
                r == Ok(values[old(position)].n) && position == old(position) + 1
    {
      if position == |values| {
        return Err(EndOfStream);
      }
      match values[position]
      case IntValue(n) =>
        position := position + 1;
        return Ok(n);
      case StringValue(_) =>
        return Err(WrongKind);
    }

    /** `readObject` cast to `String`: the next value, which must be a
        string. */
    method ReadString() returns (r: Result<string, StreamError>)
      requires Valid()
      modifies this
      ensures Valid()
      ensures old(position) == |values| ==> r == Err(EndOfStream)
      ensures old(position) < |values| && !values[old(position)].StringValue? ==> r == Err(WrongKind)
      ensures old(position) < |values| && values[old(position)].StringValue? ==>
                r == Ok(values[old(position)].s) && position == old(position) + 1
    {
      if position == |values| {
        return Err(EndOfStream);
      }
      match values[position]
      case StringValue(s) =>
        position := position + 1;
        return Ok(s);
      case IntValue(_) =>
        return Err(WrongKind);
    }
  }

  /** `serializePath`: appends the encoding of the path (null being
      `None`) to the stream. */
  method SerializePath(out: ObjectOutput, path: Option<Path>)
    modifies out
    ensures out.written == old(out.written) + Encoding(path)
  {
    if path.Some? {
      var p := path.value;
      out.WriteInt(|p|);
      ghost var head := out.written;
      var i := 0;
      while i < |p|
        invariant 0 <= i <= |p|
        invariant out.written == head + Strings(p[..i])
      {
        out.WriteString(p[i]);
        StringsSnoc(p, i);
        assert out.written == head + (Strings(p[..i]) + [StringValue(p[i])]);
        i := i + 1;
      }
      assert p[..i] == p;
    } else {
      out.WriteInt(0);
    }
  }

  /** `deserializePath`: reads a path back as `Decode` describes, filling
      an array with the names after the first. */
  method DeserializePath(input: ObjectInput) returns (r: Result<Option<Path>, StreamError>)
    requires input.Valid()
    modifies input
    ensures input.Valid()
    ensures r == Decode(old(input.Ahead()))
  {
    ghost var vs := input.Ahead();
    var count := input.ReadInt();
    if count.Err? {
      return Err(count.error);
    }
    if count.value == 0 {
      return Ok(None);
    }
    var first := input.ReadString();
    if first.Err? {
      return Err(first.error);
    }
    if count.value < 0 {
      return Err(NegativeArraySize);
    }
    assert vs[2..] == input.Ahead();
    var restSegments := new string[count.value - 1];
    var rest := ReadSegments(input, restSegments);
    DecodeRest(vs, count.value, first.value);
    if rest.Err? {
      return Err(rest.error);
    }
    return Ok(Some(PathsGet([first.value] + restSegments[..])));
  }

  /** The loop of `deserializePath` that fills the array of the names after
      the first: it reads as `ReadStrings` describes, stopping at the first
      value that cannot be read as a string. */
  method ReadSegments(input: ObjectInput, segments: array<string>) returns (r: Result<(), StreamError>)
    requires input.Valid()
    modifies input, segments
    ensures input.Valid()
    ensures r.Ok? ==> ReadStrings(old(input.Ahead()), segments.Length) == Ok(segments[..])
    ensures r.Err? ==> ReadStrings(old(input.Ahead()), segments.Length) == Err(r.error)
  {
    ghost var vs := input.Ahead();
    var i := 0;
    while i < segments.Length
      invariant 0 <= i <= segments.Length
      invariant input.Valid()
      invariant input.position == old(input.position) + i
      invariant ReadStrings(vs, i) == Ok(segments[..i])
      modifies input, segments
    {
      var segment := input.ReadString();
      if segment.Err? {
        ReadStringsFails(vs, i, segments.Length);
        return Err(segment.error);
      }
      segments[i] := segment.value;
      assert segments[..i + 1] == segments[..i] + [segment.value];
      i := i + 1;
    }
    assert segments[..] == segments[..i];
    return Ok(());
  }

  /** A stream that starts with a positive count and a first name decodes
      as the reading of the remaining names turns out. */
  lemma DecodeRest(vs: seq<StreamValue>, n: int, first: string)
    requires |vs| >= 2 && vs[0] == IntValue(n) && vs[1] == StringValue(first) && n > 0
    ensures ReadStrings(vs[2..], n - 1).Err? ==> Decode(vs) == Err(ReadStrings(vs[2..], n - 1).error)
    ensures ReadStrings(vs[2..], n - 1).Ok? ==>
      Decode(vs) == Ok(Some(PathsGet([first] + ReadStrings(vs[2..], n - 1).value)))
  {
  }

  /** The first string that cannot be read decides the error of every
      longer run. */
  lemma {:induction false} ReadStringsFails(vs: seq<StreamValue>, i: nat, k: nat)
    requires i < k
    requires ReadStrings(vs, i).Ok?
    requires i >= |vs| || !vs[i].StringValue?
    ensures ReadStrings(vs, k) == Err(if i >= |vs| then EndOfStream else WrongKind)
    decreases k
  {
    if k > i + 1 {
      ReadStringsFails(vs, i, k - 1);
    }
  }
}
