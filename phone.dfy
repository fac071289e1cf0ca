/**
 * The phone-number fields of the sign-up page and of `PhoneInput`: typed
 * text is reduced to the characters `Number` reads as an integer, with a
 * dash after the third and the sixth of them (`xxx-xxx-xxxx`), cut to
 * twelve characters.
 */
module Phone {
  import opened Seqs
  import opened Text

  /**
   * `Number.isInteger(Number(c))` for one character: a digit, or whitespace,
   * which `Number` reads as 0.
   */
  predicate Accepted(c: char) {
    IsDigit(c) || IsSpace(c)
  }

  /** The accepted characters of `s`, in order. */
  function Kept(s: string): (k: string)
    ensures |k| <= |s|
    ensures forall i :: 0 <= i < |k| ==> Accepted(k[i])
  {
    if |s| == 0 then []
    else if Accepted(s[|s| - 1]) then Kept(s[..|s| - 1]) + [s[|s| - 1]]
    else Kept(s[..|s| - 1])
  }

  /** The longest formatted number: ten characters and two dashes. */
  const MaxLength: nat := 12

  /** The accepted characters with a dash after the third and the sixth. */
  function Dashed(k: string): (r: string)
    ensures |r| == |k| + (if |k| >= 3 then 1 else 0) + (if |k| >= 6 then 1 else 0)
  {
    if |k| < 3 then k
    else if |k| < 6 then k[..3] + "-" + k[3..]
    else k[..3] + "-" + k[3..6] + "-" + k[6..]
  }

  /** What the formatting loop produces for `value`. */
  function PhoneFormat(value: string): (phone: string)
    ensures |phone| <= MaxLength
  {
    Take(Dashed(Kept(value)), MaxLength)
  }

  /** One pass of the loop: push the character, then a dash when the array reaches 3 or 7. */
  lemma DashedPush(k: string, c: char)
    ensures Dashed(k + [c]) ==
            if |Dashed(k) + [c]| == 3 || |Dashed(k) + [c]| == 7 then Dashed(k) + [c] + "-" else Dashed(k) + [c]
  {
    var n := k + [c];
    if |k| >= 6 {
      assert n[..3] == k[..3] && n[3..6] == k[3..6] && n[6..] == k[6..] + [c];
    } else if |k| >= 3 {
      assert n[..3] == k[..3];
      if |k| == 5 {
        assert n[3..6] == k[3..] + [c] && n[6..] == [];
      } else {
        assert n[3..] == k[3..] + [c];
      }
    } else if |k| == 2 {
      assert n[..3] == n && n[3..] == [];
    }
  }

  /** The `validNums` loop followed by `validNums.slice(0, 12).join("")`. */
  method FormatPhone(value: string) returns (phone: string)
    ensures phone == PhoneFormat(value)
  {
    var validNums: seq<char> := [];
    var i := 0;
    while i < |value|
      invariant 0 <= i <= |value|
      invariant validNums == Dashed(Kept(value[..i]))
    {
      assert value[..i + 1][..i] == value[..i];
      if Accepted(value[i]) {
        DashedPush(Kept(value[..i]), value[i]);
        validNums := validNums + [value[i]];
        if |validNums| == 3 || |validNums| == 7 {
          validNums := validNums + ['-'];
        }
      }
      i := i + 1;
    }
    assert value[..i] == value;
    phone := Take(validNums, MaxLength);
  }

  /**
   * `PhoneInput`'s change handler: a shorter value (a deletion) is taken as
   * typed; anything else is reformatted.
   */
  method PhoneInputChange(phone: string, typed: string) returns (next: string)
    ensures |typed| < |phone| ==> next == typed
    ensures |typed| >= |phone| ==> next == PhoneFormat(typed)
  {
    if |typed| < |phone| {
      return typed;
    }
    next := FormatPhone(typed);
  }

  lemma {:induction false} KeptAppend(a: string, b: string)
    ensures Kept(a + b) == Kept(a) + Kept(b)
  {
    if |b| > 0 {
      var n := |b| - 1;
      KeptAppend(a, b[..n]);
      assert (a + b)[..|a + b| - 1] == a + b[..n];
    } else {
      assert a + b == a;
    }
  }

  lemma {:induction false} KeptAccepted(k: string)
    requires forall i :: 0 <= i < |k| ==> Accepted(k[i])
    ensures Kept(k) == k
  {
    if |k| > 0 {
      KeptAccepted(k[..|k| - 1]);
    }
  }

  /** Dashes are dropped again: formatting's own characters come back out in order. */
  lemma KeptDashed(k: string)
    requires forall i :: 0 <= i < |k| ==> Accepted(k[i])
    ensures Kept(Dashed(k)) == k
  {
    assert Kept("-") == [] by {
      assert "-"[..0] == [];
    }
    if |k| < 3 {
      KeptAccepted(k);
    } else if |k| < 6 {
      KeptAccepted(k[..3]);
      KeptAccepted(k[3..]);
      KeptAppend(k[..3], "-");
      KeptAppend(k[..3] + "-", k[3..]);
    } else {
      KeptAccepted(k[..3]);
      KeptAccepted(k[3..6]);
      KeptAccepted(k[6..]);
      KeptAppend(k[..3], "-");
      KeptAppend(k[..3] + "-", k[3..6]);
      KeptAppend(k[..3] + "-" + k[3..6], "-");
      KeptAppend(k[..3] + "-" + k[3..6] + "-", k[6..]);
    }
  }

  /** Cutting the dashed form to 12 characters is dashing the first ten accepted characters. */
  lemma TakeDashed(k: string)
    ensures Take(Dashed(k), MaxLength) == Dashed(Take(k, 10))
  {
    if |k| > 10 {
      var t := k[..10];
      assert t[..3] == k[..3] && t[3..6] == k[3..6] && t[6..] == k[6..10];
      assert Dashed(k)[..12] == k[..3] + "-" + k[3..6] + "-" + k[6..10];
    }
  }

  /** Formatting an already formatted number changes nothing. */
  lemma PhoneFormatIdempotent(value: string)
    ensures PhoneFormat(PhoneFormat(value)) == PhoneFormat(value)
  {
    var k := Take(Kept(value), 10);
    TakeDashed(Kept(value));
    KeptDashed(k);
    TakeDashed(k);
    assert Take(k, 10) == k;
  }

  /**
   * The shape of the result: a dash at positions 3 and 7 when the number
   * reaches them, and every other character one the formatter accepts.
   */
  lemma PhoneFormatShape(value: string)
    ensures |PhoneFormat(value)| > 3 ==> PhoneFormat(value)[3] == '-'
    ensures |PhoneFormat(value)| > 7 ==> PhoneFormat(value)[7] == '-'
    ensures forall i :: 0 <= i < |PhoneFormat(value)| && i != 3 && i != 7 ==> Accepted(PhoneFormat(value)[i])
  {
    var k := Take(Kept(value), 10);
    TakeDashed(Kept(value));
    var r := Dashed(k);
    forall i | 0 <= i < |r| && i != 3 && i != 7
      ensures Accepted(r[i])
    {
      if |k| < 3 {
      } else if |k| < 6 {
        if i < 3 { assert r[i] == k[i]; } else { assert r[i] == k[i - 1]; }
      } else {
        if i < 3 { assert r[i] == k[i]; }
        else if i < 7 { assert r[i] == k[i - 1]; }
        else { assert r[i] == k[i - 2]; }
      }
    }
  }

  /** Ten digits typed in a row become `xxx-xxx-xxxx`. */
  lemma TenDigits()
    ensures PhoneFormat("6175551234") == "617-555-1234"
  {
    KeptAccepted("6175551234");
  }

  /** A space counts as a number: it is kept and takes a digit's place. */
  lemma SpaceIsKept()
    ensures PhoneFormat("12 ") == "12 -"
  {
    KeptAccepted("12 ");
  }
}
