/**
 * Password uniqueness over a Bloom filter: each raw input is rejected, reported
 * as possibly used, or reported unique and added to the filter on the spot, so
 * that later inputs see earlier inserts.  Results are keyed by the raw value.
 */
module Passwords {
  import opened Bloom

  /** A raw input item: a string, `None`, or an integer. */
  datatype Value = Str(s: string) | NoneV | IntV(i: int)

  datatype Label = IncorrectPassword | PossiblyUsed | Unique
  {
    /** The text the original reports for each label. */
    function Text(): (r: string)
      ensures r != []
    {
      match this
      case IncorrectPassword => "Incorrect password"
      case PossiblyUsed => "Possibly used"
      case Unique => "Unique"
    }
  }

  /** The three labels print as three different texts. */
  lemma LabelTextsDistinct(a: Label, b: Label)
    ensures a.Text() == b.Text() ==> a == b
  {
  }

  /**
   * Python's whitespace characters (`str.isspace`): never a letter or digit,
   * always the usual blanks.
   */
  predicate IsSpace(c: char)
    ensures ('0' <= c <= '9' || 'A' <= c <= 'Z' || 'a' <= c <= 'z') ==> !IsSpace(c)
    ensures (c == ' ' || c == '\t' || c == '\n' || c == '\r') ==> IsSpace(c)
  {
    ('\t' <= c <= '\r') || ('\U{1C}' <= c <= ' ') || c == '\U{85}' || c == '\U{A0}'
    || c == '\U{1680}' || ('\U{2000}' <= c <= '\U{200A}') || c == '\U{2028}' || c == '\U{2029}'
    || c == '\U{202F}' || c == '\U{205F}' || c == '\U{3000}'
  }

  /** Every character is whitespace (the empty string included). */
  predicate IsBlank(s: string) {
    forall k :: 0 <= k < |s| ==> IsSpace(s[k])
  }

  /** A string is blank iff its first character is whitespace and the rest is blank. */
  lemma {:induction false} BlankFront(s: string)
    requires s != []
    ensures IsBlank(s) <==> IsSpace(s[0]) && IsBlank(s[1..])
  {
    if IsSpace(s[0]) && IsBlank(s[1..]) {
      forall k | 0 <= k < |s|
        ensures IsSpace(s[k])
      {
        if k > 0 {
          assert s[k] == s[1..][k - 1];
        }
      }
    }
  }

  /** Whitespace before `n` characters of the tail, after a whitespace head. */
  lemma {:induction false} SpacePrefixFront(s: string, n: nat)
    requires s != [] && n < |s| && IsSpace(s[0])
    requires forall k :: 0 <= k < n ==> IsSpace(s[1..][k])
    ensures forall k :: 0 <= k < n + 1 ==> IsSpace(s[k])
  {
    forall k | 0 < k < n + 1
      ensures IsSpace(s[k])
    {
      assert s[k] == s[1..][k - 1];
    }
  }

  /** `s` without its leading whitespace. */
  function TrimStart(s: string): (r: string)
    ensures |r| <= |s| && r == s[|s| - |r|..]
    ensures forall k :: 0 <= k < |s| - |r| ==> IsSpace(s[k])
    ensures r != [] ==> !IsSpace(r[0])
    ensures r == [] <==> IsBlank(s)
  {
    if s != [] && IsSpace(s[0]) then
      var r := TrimStart(s[1..]);
      assert s[1..][|s| - 1 - |r|..] == s[|s| - |r|..];
      BlankFront(s);
      SpacePrefixFront(s, |s| - 1 - |r|);
      r
    else
      assert s != [] ==> !IsBlank(s);
      s
  }

  /** `s` without its trailing whitespace. */
  function TrimEnd(s: string): (r: string)
    ensures |r| <= |s| && r == s[..|r|]
    ensures forall k :: |r| <= k < |s| ==> IsSpace(s[k])
    ensures r != [] ==> !IsSpace(r[|r| - 1])
    ensures r == [] <==> IsBlank(s)
  {
    if s != [] && IsSpace(s[|s| - 1]) then
      var r := TrimEnd(s[..|s| - 1]);
      assert IsBlank(s) <==> IsBlank(s[..|s| - 1]);
      r
    else s
  }

  /**
   * `s.strip()`: leading and trailing whitespace removed.  It is empty exactly
   * when `s` is nothing but whitespace.
   */
  function Strip(s: string): (r: string)
    ensures r == [] <==> IsBlank(s)
    ensures r != [] ==> !IsSpace(r[0]) && !IsSpace(r[|r| - 1])
  {
    TrimEnd(TrimStart(s))
  }

  /**
   * A value that is checked at all: a string whose `strip()` is not empty,
   * that is, a string that is not all whitespace.
   */
  predicate IsValid(v: Value)
    ensures IsValid(v) ==> v.Str? && v.s != []
  {
    v.Str? && !IsBlank(v.s)
  }

  /** The guard of the original: a value is valid iff it is a string whose `strip()` is not empty. */
  lemma ValidIffStripped(v: Value)
    ensures IsValid(v) <==> v.Str? && Strip(v.s) != []
  {
  }

  /** Hashing is only needed if some item is valid. */
  predicate CanClassify(s: HashScheme, ps: seq<Value>) {
    s.Defined() || forall k :: 0 <= k < |ps| ==> !IsValid(ps[k])
  }

  /** One item: its label and the filter bits afterwards. */
  function Classify(s: HashScheme, bits: seq<bool>, v: Value): (r: (Label, seq<bool>))
    requires |bits| == s.size && (IsValid(v) ==> s.Defined())
    ensures r.0 == IncorrectPassword <==> !IsValid(v)
    ensures r.0 == Unique <==> IsValid(v) && !AllSet(bits, s.Indices(v.s))
    ensures r.0 != Unique ==> r.1 == bits
    ensures r.0 == Unique ==> r.1 == SetBits(bits, s.Indices(v.s))
    ensures Covers(bits, r.1)
    ensures IsValid(v) ==> AllSet(r.1, s.Indices(v.s))
  {
    if !IsValid(v) then (IncorrectPassword, bits)
    else if AllSet(bits, s.Indices(v.s)) then (PossiblyUsed, bits)
    else (Unique, SetBits(bits, s.Indices(v.s)))
  }

  /** Filter bits and result map after classifying a prefix of the input. */
  datatype Outcome = Outcome(bits: seq<bool>, results: map<Value, Label>)

  /** Classifies `ps` in order, starting from `bits` and an empty result map. */
  function Run(s: HashScheme, bits: seq<bool>, ps: seq<Value>): (r: Outcome)
    requires |bits| == s.size && CanClassify(s, ps)
    ensures Covers(bits, r.bits)
    decreases |ps|
  {
    if ps == [] then Outcome(bits, map[])
    else
      var front := ps[..|ps| - 1];
      var v := ps[|ps| - 1];
      var before := Run(s, bits, front);
      var step := Classify(s, before.bits, v);
      Outcome(step.1, before.results[v := step.0])
  }

  /** The result keys are exactly the input values. */
  lemma {:induction false} ResultKeys(s: HashScheme, bits: seq<bool>, ps: seq<Value>)
    requires |bits| == s.size && CanClassify(s, ps)
    ensures forall v :: v in Run(s, bits, ps).results <==> v in ps
    decreases |ps|
  {
    if ps != [] {
      var front := ps[..|ps| - 1];
      ResultKeys(s, bits, front);
      assert ps == front + [ps[|ps| - 1]];
    }
  }

  /**
   * A value's stored label is the one given at its last occurrence, against
   * the filter as it stood after all earlier items.
   */
  lemma {:induction false} LastOccurrenceWins(s: HashScheme, bits: seq<bool>, ps: seq<Value>, i: nat)
    requires |bits| == s.size && CanClassify(s, ps)
    requires i < |ps|
    requires forall j :: i < j < |ps| ==> ps[j] != ps[i]
    ensures ps[i] in Run(s, bits, ps).results
    ensures Run(s, bits, ps).results[ps[i]] == Classify(s, Run(s, bits, ps[..i]).bits, ps[i]).0
    decreases |ps|
  {
    var front := ps[..|ps| - 1];
    if i == |ps| - 1 {
      assert ps[..i] == front;
    } else {
      assert front[i] == ps[i] && front[..i] == ps[..i];
      LastOccurrenceWins(s, bits, front, i);
    }
  }

  /** After the run, every valid input string is reported present by the filter. */
  lemma {:induction false} RunNoFalseNegatives(s: HashScheme, bits: seq<bool>, ps: seq<Value>, k: nat)
    requires |bits| == s.size && CanClassify(s, ps)
    requires k < |ps| && IsValid(ps[k])
    ensures s.Defined() && AllSet(Run(s, bits, ps).bits, s.Indices(ps[k].s))
    decreases |ps|
  {
    var front := ps[..|ps| - 1];
    if k < |ps| - 1 {
      assert front[k] == ps[k];
      RunNoFalseNegatives(s, bits, front, k);
      CheckPersists(Run(s, bits, front).bits, Run(s, bits, ps).bits, s.Indices(ps[k].s));
    }
  }

  /** Every item whose label is not `Unique` leaves the filter bits unchanged. */
  lemma {:induction false} OnlyUniqueAdds(s: HashScheme, bits: seq<bool>, ps: seq<Value>)
    requires |bits| == s.size && CanClassify(s, ps)
    requires forall k :: 0 <= k < |ps| ==> Classify(s, Run(s, bits, ps[..k]).bits, ps[k]).0 != Unique
    ensures Run(s, bits, ps).bits == bits
    decreases |ps|
  {
    if ps != [] {
      var front := ps[..|ps| - 1];
      forall k | 0 <= k < |front|
        ensures Classify(s, Run(s, bits, front[..k]).bits, front[k]).0 != Unique
      {
        assert front[..k] == ps[..k] && front[k] == ps[k];
      }
      OnlyUniqueAdds(s, bits, front);
    }
  }

  /**
   * A bit set after the run was set before it or is a position of some valid
   * input: the run sets no other bit.
   */
  lemma {:induction false} RunFrame(s: HashScheme, bits: seq<bool>, ps: seq<Value>, j: nat)
    requires |bits| == s.size && CanClassify(s, ps)
    requires j < |bits| && Run(s, bits, ps).bits[j]
    ensures bits[j] || exists k :: 0 <= k < |ps| && IsValid(ps[k]) && j in s.Indices(ps[k].s)
    decreases |ps|
  {
    if ps != [] && !bits[j] {
      var front := ps[..|ps| - 1];
      var v := ps[|ps| - 1];
      var before := Run(s, bits, front).bits;
      var step := Classify(s, before, v);
      assert Run(s, bits, ps).bits == step.1;
      if before[j] {
        RunFrame(s, bits, front, j);
        var k :| 0 <= k < |front| && IsValid(front[k]) && j in s.Indices(front[k].s);
        assert ps[k] == front[k];
      } else {
        assert step.0 == Unique;
        assert IsValid(ps[|ps| - 1]) && j in s.Indices(ps[|ps| - 1].s);
      }
    }
  }

  /** `check_password_uniqueness`: classifies `passwords` in order against `f`. */
  method CheckPasswordUniqueness(f: Filter, passwords: seq<Value>) returns (results: map<Value, Label>)
    requires f.Valid() && CanClassify(f.scheme, passwords)
    modifies f.bits
    ensures Outcome(f.bits[..], results) == Run(f.scheme, old(f.bits[..]), passwords)
    ensures forall v :: v in results <==> v in passwords
    ensures forall k :: 0 <= k < |passwords| && IsValid(passwords[k]) ==> f.Check(passwords[k].s)
  {
    results := map[];
    for i := 0 to |passwords|
      invariant Outcome(f.bits[..], results) == Run(f.scheme, old(f.bits[..]), passwords[..i])
    {
      assert passwords[..i + 1][..i] == passwords[..i];
      var password := passwords[i];
      if !password.Str? || Strip(password.s) == [] {
        results := results[password := IncorrectPassword];
        continue;
      }
      if f.Check(password.s) {
        results := results[password := PossiblyUsed];
      } else {
        results := results[password := Unique];
        f.Add(password.s);
      }
    }
    assert passwords[..|passwords|] == passwords;
    ResultKeys(f.scheme, old(f.bits[..]), passwords);
    forall k | 0 <= k < |passwords| && IsValid(passwords[k])
      ensures f.Check(passwords[k].s)
    {
      RunNoFalseNegatives(f.scheme, old(f.bits[..]), passwords, k);
    }
  }

  /** The seven raw inputs of the demonstration, in order. */
  function DemoInputs(): (ps: seq<Value>)
    ensures |ps| == 7
    ensures forall i, j :: 0 <= i < j < |ps| ==> ps[i] != ps[j]
  {
    [Str("password123"), Str("newpassword"), Str("admin123"), Str("guest"), Str(""), NoneV, IntV(12345)]
  }

  /**
   * The demonstration: a 1000-bit filter with 3 hashes into which three
   * passwords were added, then the seven raw inputs.  `start` is the filter
   * before the three adds (cleared, for a new filter).  Every input gets a
   * label, and nothing else does.
   */
  function DemoRun(hash: HashFn, start: seq<bool>): (r: Outcome)
    requires |start| == 1000
    ensures forall v :: v in r.results <==> v in DemoInputs()
  {
    var s := HashScheme(1000, 3, hash);
    var seeded := AddAll(s, start, ["password123", "admin123", "qwerty123"]);
    ResultKeys(s, seeded, DemoInputs());
    Run(s, seeded, DemoInputs())
  }

  /** Whatever the hash, the two pre-added passwords are reported possibly used. */
  lemma {:induction false} DemoPreAddedPossiblyUsed(hash: HashFn, start: seq<bool>)
    requires |start| == 1000
    ensures var r := DemoRun(hash, start).results;
            Str("password123") in r && r[Str("password123")] == PossiblyUsed
            && Str("admin123") in r && r[Str("admin123")] == PossiblyUsed
  {
    var s := HashScheme(1000, 3, hash);
    var added := ["password123", "admin123", "qwerty123"];
    var seeded := AddAll(s, start, added);
    var ps := DemoInputs();
    assert ps[0] == Str("password123") && ps[2] == Str("admin123");
    assert ps[0].s[0] == 'p' && ps[2].s[0] == 'a';
    assert IsValid(ps[0]) && IsValid(ps[2]);
    // password123 meets the filter exactly as seeded.
    NoFalseNegatives(s, start, added, 0);
    assert ps[..0] == [];
    LastOccurrenceWins(s, seeded, ps, 0);
    // admin123 meets it after two more items, which only set bits.
    NoFalseNegatives(s, start, added, 1);
    CheckPersists(seeded, Run(s, seeded, ps[..2]).bits, s.Indices("admin123"));
    LastOccurrenceWins(s, seeded, ps, 2);
  }

  /** Whatever the hash, the empty string, `None` and `12345` are incorrect. */
  lemma {:induction false} DemoRejected(hash: HashFn, start: seq<bool>)
    requires |start| == 1000
    ensures var r := DemoRun(hash, start).results;
            Str("") in r && r[Str("")] == IncorrectPassword
            && NoneV in r && r[NoneV] == IncorrectPassword
            && IntV(12345) in r && r[IntV(12345)] == IncorrectPassword
  {
    var s := HashScheme(1000, 3, hash);
    var seeded := AddAll(s, start, ["password123", "admin123", "qwerty123"]);
    var ps := DemoInputs();
    assert ps[4] == Str("") && ps[5] == NoneV && ps[6] == IntV(12345);
    LastOccurrenceWins(s, seeded, ps, 4);
    LastOccurrenceWins(s, seeded, ps, 5);
    LastOccurrenceWins(s, seeded, ps, 6);
  }

  /** Whatever the hash, the two new passwords are not rejected. */
  lemma {:induction false} DemoNewAccepted(hash: HashFn, start: seq<bool>)
    requires |start| == 1000
    ensures var r := DemoRun(hash, start).results;
            Str("newpassword") in r && r[Str("newpassword")] != IncorrectPassword
            && Str("guest") in r && r[Str("guest")] != IncorrectPassword
  {
    var s := HashScheme(1000, 3, hash);
    var seeded := AddAll(s, start, ["password123", "admin123", "qwerty123"]);
    var ps := DemoInputs();
    assert ps[1] == Str("newpassword") && ps[3] == Str("guest");
    assert ps[1].s[0] == 'n' && ps[3].s[0] == 'g';
    assert IsValid(ps[1]) && IsValid(ps[3]);
    LastOccurrenceWins(s, seeded, ps, 1);
    LastOccurrenceWins(s, seeded, ps, 3);
  }
}
