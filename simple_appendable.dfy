/**
 * `SimpleAppendable`: an `Appendable` that hands each appended text,
 * trimmed, to a consumer, and drops text that is blank. The consumer is
 * modelled by the log of the texts it has been given.
 */
module SimpleAppendable {
  import opened Strings

  /** What one `append` hands to the consumer: the trimmed text, or nothing when it is blank. */
  function Emitted(text: string): (r: seq<string>)
    ensures |r| <= 1
    ensures r == [] <==> IsBlank(text)
    ensures r != [] ==> r[0] == Trim(text)
  {
    TrimEmptyIffBlank(text);
    var t := Trim(text);
    if |t| > 0 then [t] else []
  }

  /** The text handed over starts and ends with a character that is not whitespace. */
  lemma EmittedIsTrimmed(text: string)
    requires !IsBlank(text)
    ensures var t := Emitted(text)[0]; |t| > 0 && !IsWhitespace(t[0]) && !IsWhitespace(t[|t| - 1])
  {
    var s := TrimStart(text);
    var t := TrimEnd(s);
    assert Trim(text) == t;
    var e := Emitted(text);
    assert e != [] && e[0] == t;
    FirstOfPrefix(s, t);
  }

  /** A non-empty prefix starts with the same character. */
  lemma FirstOfPrefix(s: string, t: string)
    requires |t| > 0 && |t| <= |s| && t == s[..|t|]
    ensures t[0] == s[0]
  {
  }

  /** Appending the text the consumer was given hands over the same text again. */
  lemma EmittedIdempotent(text: string)
    requires !IsBlank(text)
    ensures Emitted(Emitted(text)[0]) == Emitted(text)
  {
    var t := Emitted(text)[0];
    EmittedIsTrimmed(text);
    assert TrimStart(t) == t;
    assert TrimEnd(t) == t;
  }

  class SimpleAppendable {
    /** The texts the consumer has received, in order. */
    var consumed: seq<string>

    constructor()
      ensures consumed == []
    {
      consumed := [];
    }

    /** `append(csq)`: the consumer gets the trimmed text unless it is blank; the receiver is returned. */
    method Append(csq: string) returns (r: SimpleAppendable)
      modifies this
      ensures r == this
      ensures consumed == old(consumed) + Emitted(csq)
    {
      var text := Trim(csq);
      if |text| > 0 {
        consumed := consumed + [text];
      }
      r := this;
    }

    /** `append(csq, start, end)`: `append` of the characters from `start` up to `end`. */
    method AppendRange(csq: string, start: int, end: int) returns (r: SimpleAppendable)
      requires 0 <= start <= end <= |csq|
      modifies this
      ensures r == this
      ensures consumed == old(consumed) + Emitted(csq[start..end])
    {
      var _ := Append(csq[start..end]);
      r := this;
    }

    /** `append(c)`: `append` of the one-character text. */
    method AppendChar(c: char) returns (r: SimpleAppendable)
      modifies this
      ensures r == this
      ensures consumed == old(consumed) + Emitted([c])
      ensures IsWhitespace(c) ==> consumed == old(consumed)
      ensures !IsWhitespace(c) ==> consumed == old(consumed) + [[c]]
    {
      var _ := Append([c]);
      assert TrimStart([c]) == (if IsWhitespace(c) then [] else [c]);
      r := this;
    }
  }
}
