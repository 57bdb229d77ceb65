/**
 The header frame: the sender writes `name + SEPARATOR + str(size)` in one
 send; the receiver splits its first read on the separator, insists on
 exactly two parts, sanitises the name and reads the size with `int()`.
 */
module Header {
  import opened Wrappers
  import opened Constants
  import opened Text
  import opened Decimal
  import opened Paths

  /** What the receiver learns from a header: a sanitised name and the declared size. */
  datatype Metadata = Metadata(name: string, size: int)

  /** Why a header is refused; Python raises `ValueError` in both cases. */
  datatype HeaderError =
    | PartCount(parts: nat)   // the two-way unpack met some other number of parts
    | BadSize(text: string)   // the size part is not an integer literal

  /** The separator cannot overlap itself: `<` occurs only at its start. */
  lemma SeparatorSelfDisjoint()
    ensures SelfDisjoint(SEPARATOR)
  {
  }

  /** A decimal number never contains the separator, whose first character is not a digit. */
  lemma DigitsAvoidSeparator(n: nat)
    ensures !Contains(FromNat(n), SEPARATOR)
  {
    var d := FromNat(n);
    forall i | 0 <= i <= |d| && OccursAt(d, SEPARATOR, i)
      ensures false
    {
      OccurrenceChar(d, SEPARATOR, i, 0);
    }
  }

  /** The frame the sender writes for a file called `name` holding `size`
      bytes: the name, the separator, then the size in decimal. When the name
      does not contain the separator, the first separator a reader finds is
      the one inserted after the name. */
  function BuildHeader(name: string, size: nat): (h: string)
    ensures |h| == |name| + |SEPARATOR| + |FromNat(size)|
    ensures h[..|name|] == name && OccursAt(h, SEPARATOR, |name|)
    ensures h[|name| + |SEPARATOR|..] == FromNat(size)
    ensures !Contains(name, SEPARATOR) ==> IndexOf(h, SEPARATOR) == Some(|name|)
  {
    var h := name + SEPARATOR + FromNat(size);
    SeparatorSelfDisjoint();
    assert h[|name|..|name| + |SEPARATOR|] == SEPARATOR;
    if Contains(name, SEPARATOR) then h
    else
      FirstAtSeam(name, SEPARATOR, FromNat(size));
      h
  }

  /** The receiver's reading of its first read, `received`. */
  function ParseHeader(received: string): (r: Result<Metadata, HeaderError>)
    ensures r.Success? <==> OccursExactlyOnce(received, SEPARATOR) && ParseInt(Split(received, SEPARATOR)[1]).Some?
    ensures !OccursExactlyOnce(received, SEPARATOR) ==> r == Failure(PartCount(|Split(received, SEPARATOR)|))
    ensures OccursExactlyOnce(received, SEPARATOR) && ParseInt(Split(received, SEPARATOR)[1]).None? ==>
      r == Failure(BadSize(Split(received, SEPARATOR)[1]))
    ensures r.Success? ==> '/' !in r.value.name
  {
    var parts := Split(received, SEPARATOR);
    SeparatorSelfDisjoint();
    SplitInTwo(received, SEPARATOR);
    if |parts| != 2 then Failure(PartCount(|parts|))
    else
      var name := Basename(parts[0]);
      match ParseInt(parts[1])
      case None => Failure(BadSize(parts[1]))
      case Some(size) => Success(Metadata(name, size))
  }

  /** The header round-trips: when the name does not contain the separator,
      the receiver splits the frame back into the name and the decimal size,
      and recovers the sanitised name and the exact size. */
  lemma HeaderRoundTrip(name: string, size: nat)
    requires !Contains(name, SEPARATOR)
    ensures Split(BuildHeader(name, size), SEPARATOR) == [name, FromNat(size)]
    ensures ParseHeader(BuildHeader(name, size)) == Success(Metadata(Basename(name), size))
  {
    var parts := [name, FromNat(size)];
    DigitsAvoidSeparator(size);
    SeparatorSelfDisjoint();
    assert Join(parts, SEPARATOR) == BuildHeader(name, size);
    SplitJoin(parts, SEPARATOR);
    ParseFromNat(size);
  }

  /** A name that itself contains the separator gives a frame with at least
      two occurrences, which the two-way unpack rejects. */
  lemma SeparatorInNameRejected(name: string, size: nat)
    requires Contains(name, SEPARATOR)
    ensures !OccursExactlyOnce(BuildHeader(name, size), SEPARATOR)
    ensures ParseHeader(BuildHeader(name, size)).Failure?
    ensures ParseHeader(BuildHeader(name, size)).error.PartCount?
  {
    var h := BuildHeader(name, size);
    var j :| 0 <= j <= |name| && OccursAt(name, SEPARATOR, j);
    assert h[..|name|] == name;
    OccursInPrefix(h, SEPARATOR, |name|, j);
    assert h[|name|..|name| + |SEPARATOR|] == SEPARATOR;
    assert OccursAt(h, SEPARATOR, |name|);
    assert j != |name|;
  }

  /** A size preceded by the file separator 0x1C, which `int()` does not skip,
      is refused as a bad size although the separator occurs once. */
  lemma ControlPaddedSizeRefused()
    ensures ParseHeader("a" + SEPARATOR + "\U{1C}5") == Failure(BadSize("\U{1C}5"))
  {
    var parts := ["a", "\U{1C}5"];
    SeparatorSelfDisjoint();
    assert !Contains(parts[0], SEPARATOR) && !Contains(parts[1], SEPARATOR);
    assert Join(parts, SEPARATOR) == "a" + SEPARATOR + "\U{1C}5";
    SplitJoin(parts, SEPARATOR);
    LeadingSeparatorRefused();
  }
}
