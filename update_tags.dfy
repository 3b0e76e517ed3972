/**
 * The image-tag bump of a Terraform variables record: the value under
 * "image_tag" is split on '.', its last component is parsed as an integer and
 * replaced by the decimal rendering of that integer plus one, and the
 * components are joined back with '.' and stored under "image_tag".
 */
module UpdateTags {
  import opened Wrappers
  import opened Decimal
  import opened Components

  const ImageTagKey: string := "image_tag"
  const Dot: char := '.'

  /** What `update_image_tag` raises. */
  datatype Error =
    | KeyNotFound(key: string)         // the subscript `data['image_tag']` finds no such key
    | ImageTagMissing                  // the tag is empty: "does not contain the variable image_tag"
    | InvalidLiteral(literal: string)  // `int()` rejects the last component

  /** The component list with its last component, a numeral, replaced by the rendering of its value plus one. */
  function IncrementLast(parts: seq<string>): (r: seq<string>)
    requires |parts| > 0 && IsNumeral(Last(parts))
    ensures |r| == |parts| && r[..|r| - 1] == parts[..|parts| - 1]
    ensures IsCanonical(Last(r)) && Value(Last(r)) == Value(Last(parts)) + 1
  {
    parts[|parts| - 1 := Render(Value(Last(parts)) + 1)]
  }

  /**
   * The new tag, or the error `int()` raises when the last component is not a
   * numeral. A tag without a dot is one component and is bumped as a whole.
   */
  function BumpTag(tag: string): (r: Result<string, Error>)
    ensures r.Ok? <==> IsNumeral(Last(Split(tag, Dot)))
    ensures r.Err? ==> r.error == InvalidLiteral(Last(Split(tag, Dot)))
  {
    var parts := Split(tag, Dot);
    if IsNumeral(Last(parts)) then Ok(Join(IncrementLast(parts), Dot))
    else Err(InvalidLiteral(Last(parts)))
  }

  /**
   * Splitting the bumped tag gives back exactly the list that was joined: the
   * same number of components, the same components but the last, and a last
   * component whose value is one more than before.
   */
  lemma BumpTagComponents(tag: string)
    requires IsNumeral(Last(Split(tag, Dot)))
    ensures BumpTag(tag).Ok?
    ensures Split(BumpTag(tag).value, Dot) == IncrementLast(Split(tag, Dot))
    ensures var before, after := Split(tag, Dot), Split(BumpTag(tag).value, Dot);
      |after| == |before| &&
      after[..|after| - 1] == before[..|before| - 1] &&
      Last(after) == Render(Value(Last(before)) + 1) &&
      Value(Last(after)) == Value(Last(before)) + 1
  {
    var parts := Split(tag, Dot);
    var bumped := IncrementLast(parts);
    assert Excludes(Last(bumped), Dot);
    assert forall i :: 0 <= i < |bumped| ==> Excludes(bumped[i], Dot) by {
      forall i | 0 <= i < |bumped| ensures Excludes(bumped[i], Dot) {
        if i < |bumped| - 1 {
          assert bumped[i] == bumped[..|bumped| - 1][i] == parts[i];
        }
      }
    }
    SplitJoin(bumped, Dot);
  }

  /** The tag after n successive bumps, or the first error. */
  function BumpTimes(tag: string, n: nat): Result<string, Error>
    decreases n
  {
    if n == 0 then Ok(tag)
    else match BumpTag(tag)
      case Err(e) => Err(e)
      case Ok(next) => BumpTimes(next, n - 1)
  }

  /**
   * `after` is `before` with its last component, a numeral in both, advanced by k;
   * the component count and every other component are the same.
   */
  predicate AdvancedBy(before: seq<string>, after: seq<string>, k: nat) {
    |before| > 0 && |after| == |before| &&
    after[..|after| - 1] == before[..|before| - 1] &&
    IsNumeral(Last(before)) && IsNumeral(Last(after)) &&
    Value(Last(after)) == Value(Last(before)) + k
  }

  lemma AdvancedByTrans(a: seq<string>, b: seq<string>, c: seq<string>, j: nat, k: nat)
    requires AdvancedBy(a, b, j) && AdvancedBy(b, c, k)
    ensures AdvancedBy(a, c, j + k)
  {
  }

  /** One bump advances the last component by exactly one. */
  lemma BumpTagAdvances(tag: string)
    requires IsNumeral(Last(Split(tag, Dot)))
    ensures BumpTag(tag).Ok? && AdvancedBy(Split(tag, Dot), Split(BumpTag(tag).value, Dot), 1)
  {
    BumpTagComponents(tag);
  }

  /** Bumping n times adds n to the last component and leaves the other components alone. */
  lemma {:induction false} BumpTimesAdds(tag: string, n: nat)
    requires IsNumeral(Last(Split(tag, Dot)))
    ensures BumpTimes(tag, n).Ok?
    ensures AdvancedBy(Split(tag, Dot), Split(BumpTimes(tag, n).value, Dot), n)
    decreases n
  {
    if n > 0 {
      BumpTagAdvances(tag);
      var next := BumpTag(tag).value;
      assert BumpTimes(tag, n) == BumpTimes(next, n - 1);
      BumpTimesAdds(next, n - 1);
      AdvancedByTrans(Split(tag, Dot), Split(next, Dot), Split(BumpTimes(tag, n).value, Dot), 1, n - 1);
    }
  }

  /** A bump never yields the tag it started from, nor one reached by another number of bumps. */
  lemma BumpTimesDistinct(tag: string, m: nat, n: nat)
    requires IsNumeral(Last(Split(tag, Dot)))
    requires m != n
    ensures BumpTimes(tag, m).Ok? && BumpTimes(tag, n).Ok?
    ensures BumpTimes(tag, m).value != BumpTimes(tag, n).value
  {
    BumpTimesAdds(tag, m);
    BumpTimesAdds(tag, n);
  }

  /** "1.2.9" becomes "1.2.10": the carry lengthens the last component. */
  lemma ExampleCarry()
    ensures BumpTag("1.2.9") == Ok("1.2.10")
  {
    var parts := ["1", "2", "9"];
    assert Join(parts[1..], Dot) == "2.9";
    assert Join(parts, Dot) == "1.2.9";
    SplitJoin(parts, Dot);
    assert Split("1.2.9", Dot) == parts;
    assert Value("9") == 9;
    assert Render(1) == "1";
    assert Render(10) == "1" + [DigitChar(0)] == "10";
    var bumped := ["1", "2", "10"];
    assert IncrementLast(parts) == bumped;
    assert Join(bumped[1..], Dot) == "2.10";
    assert Join(bumped, Dot) == "1.2.10";
  }

  /** "007" becomes "8": a tag without a dot is bumped as a whole and loses its leading zeros. */
  lemma ExampleLeadingZeros()
    ensures BumpTag("007") == Ok("8")
  {
    SplitJoin(["007"], Dot);
    assert Value("007") == 7 by {
      assert "007"[..2] == "00" && "00"[..1] == "0";
    }
    assert IncrementLast(["007"]) == ["8"];
  }

  /** A last component that is not a numeral, or is empty, is the ValueError of the parse. */
  lemma ExampleInvalid()
    ensures BumpTag("v1.x") == Err(InvalidLiteral("x"))
    ensures BumpTag("1.") == Err(InvalidLiteral(""))
  {
    SplitJoin(["v1", "x"], Dot);
    assert Join(["v1", "x"], Dot) == "v1.x";
    SplitJoin(["1", ""], Dot);
    assert Join(["1", ""], Dot) == "1.";
  }

  /**
   * What `update_image_tag` does to the record: the same record with only the
   * "image_tag" entry replaced by the bumped tag, or the error it raises (in
   * the order the source meets them: key lookup, emptiness, integer parse).
   */
  function UpdatedRecord(data: map<string, string>): (r: Result<map<string, string>, Error>)
    ensures ImageTagKey !in data ==> r == Err(KeyNotFound(ImageTagKey))
    ensures ImageTagKey in data && data[ImageTagKey] == "" ==> r == Err(ImageTagMissing)
    ensures ImageTagKey in data && data[ImageTagKey] != "" ==>
      (r.Ok? <==> IsNumeral(Last(Split(data[ImageTagKey], Dot))))
    ensures ImageTagKey in data && data[ImageTagKey] != "" && r.Err? ==>
      r.error == InvalidLiteral(Last(Split(data[ImageTagKey], Dot)))
    ensures r.Ok? ==>
      r.value.Keys == data.Keys &&
      Ok(r.value[ImageTagKey]) == BumpTag(data[ImageTagKey]) &&
      forall k :: k in data && k != ImageTagKey ==> r.value[k] == data[k]
  {
    if ImageTagKey !in data then Err(KeyNotFound(ImageTagKey))
    else if data[ImageTagKey] == "" then Err(ImageTagMissing)
    else match BumpTag(data[ImageTagKey])
      case Err(e) => Err(e)
      case Ok(tag) => Ok(data[ImageTagKey := tag])
  }

  /** Updating twice bumps the tag twice and still changes nothing but "image_tag". */
  lemma {:induction false} UpdateTwice(data: map<string, string>)
    requires UpdatedRecord(data).Ok?
    ensures UpdatedRecord(UpdatedRecord(data).value).Ok?
    ensures var twice := UpdatedRecord(UpdatedRecord(data).value).value;
      twice.Keys == data.Keys &&
      Ok(twice[ImageTagKey]) == BumpTimes(data[ImageTagKey], 2) &&
      forall k :: k in data && k != ImageTagKey ==> twice[k] == data[k]
  {
    var tag := data[ImageTagKey];
    BumpTagComponents(tag);
    var once := BumpTag(tag).value;
    BumpTagComponents(once);
    assert Excludes(Last(Split(once, Dot)), Dot);
    JoinSplit(once, Dot);
    assert once != "";
  }

  /** The variables record as loaded from the tfvars file, updated in place. */
  class TfVarsFile {
    var data: map<string, string>

    /** The record that `json.load` produced. */
    constructor (data: map<string, string>)
      ensures this.data == data
    {
      this.data := data;
    }

    /**
     * Bumps the "image_tag" entry in place and returns the new tag; on an error
     * the record is left as it was, since nothing is assigned before the raise.
     */
    method UpdateImageTag() returns (r: Result<string, Error>)
      modifies this
      ensures r.Ok? ==> UpdatedRecord(old(data)) == Ok(data) && r.value == data[ImageTagKey]
      ensures r.Err? ==> UpdatedRecord(old(data)) == Err(r.error) && data == old(data)
      ensures data.Keys == old(data).Keys
      ensures forall k :: k in old(data) && k != ImageTagKey ==> data[k] == old(data)[k]
    {
      if ImageTagKey !in data {
        return Err(KeyNotFound(ImageTagKey));
      }
      var latest := data[ImageTagKey];
      if latest == "" {
        return Err(ImageTagMissing);
      }
      var versionSplit := Split(latest, Dot);
      var last := versionSplit[|versionSplit| - 1];
      var n := ParseInt(last);
      if n.None? {
        return Err(InvalidLiteral(last));
      }
      versionSplit := versionSplit[|versionSplit| - 1 := Render(n.value + 1)];
      var updated := Join(versionSplit, Dot);
      assert BumpTag(latest) == Ok(updated);
      data := data[ImageTagKey := updated];
      return Ok(updated);
    }
  }
}
