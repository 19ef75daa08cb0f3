/** The preferences file: a text that stands for a list of facts without duplicates. */
module Prefs {
  import opened Wrappers
  import opened Bytes
  import TextLines

  const NL: byte := 0x0A
  const CR: byte := 0x0D

  function Lines(text: seq<byte>): seq<seq<byte>> { TextLines.Split(text, NL, CR) }

  const PREFS_MAX_BYTES := 10240

  datatype PrefsError = NotASingleLine | TooLarge | Io

  function Bullet(fact: seq<byte>): seq<byte> { ['-' as byte, ' ' as byte] + fact }

  predicate SingleLine(fact: seq<byte>) { NL !in fact && CR !in fact }

  /** Some line of the text is the fact's line. */
  predicate HasFact(text: seq<byte>, fact: seq<byte>) { Bullet(fact) in Lines(text) }

  /** What `append_pref` makes of a text. */
  function Appended(text: seq<byte>, fact: seq<byte>): Result<seq<byte>, PrefsError> {
    if !SingleLine(fact) then Err(NotASingleLine)
    else if HasFact(text, fact) then Ok(text)
    else
      var line := Bullet(fact) + [NL];
      if |text| + |line| > PREFS_MAX_BYTES then Err(TooLarge) else Ok(text + line)
  }

  function Without(lines: seq<seq<byte>>, target: seq<byte>): seq<seq<byte>> {
    if lines == [] then []
    else
      var rest := Without(lines[..|lines| - 1], target);
      if lines[|lines| - 1] == target then rest else rest + [lines[|lines| - 1]]
  }

  /** Every line, each closed by a newline: `join("\n") + "\n"`, and nothing for no lines. */
  function Unlines(lines: seq<seq<byte>>): seq<byte> {
    if lines == [] then [] else Unlines(lines[..|lines| - 1]) + lines[|lines| - 1] + [NL]
  }

  /** What `remove_pref` makes of a text; `None` when no line matches. */
  function Removed(text: seq<byte>, fact: seq<byte>): Option<seq<byte>> {
    if HasFact(text, fact) then Some(Unlines(Without(Lines(text), Bullet(fact)))) else None
  }

  class PrefsFile {
    /** `None` when the file does not exist. */
    var content: Option<seq<byte>>

    constructor ()
      ensures content == None
    {
      content := None;
    }

    function Text(): seq<byte>
      reads this
    {
      if content.None? then [] else content.value
    }

    /** `persisted` says whether the new file could be put in place. */
    method AppendPref(fact: seq<byte>, persisted: bool) returns (r: Result<(), PrefsError>)
      modifies this
      ensures Appended(old(Text()), fact).Err? ==> r == Err(Appended(old(Text()), fact).error)
      ensures r == Err(NotASingleLine) <==> 0x0A in fact || 0x0D in fact
      ensures r == Err(TooLarge) <==>
                0x0A !in fact && 0x0D !in fact && !HasFact(old(Text()), fact) && |old(Text())| + |fact| + 3 > 10240
      ensures r.Err? ==> content == old(content)
      ensures !persisted ==> content == old(content) && (r.Ok? <==> SingleLine(fact) && HasFact(old(Text()), fact))
      ensures Appended(old(Text()), fact).Ok? && persisted ==> r.Ok? && Text() == Appended(old(Text()), fact).value
    {
      if !SingleLine(fact) {
        return Err(NotASingleLine);
      }
      var existing := Text();
      if Bullet(fact) in Lines(existing) {
        return Ok(());
      }
      var line := Bullet(fact) + [NL];
      if |existing| + |line| > PREFS_MAX_BYTES {
        return Err(TooLarge);
      }
      if !persisted {
        return Err(Io);
      }
      content := Some(existing + line);
      return Ok(());
    }

    method RemovePref(fact: seq<byte>, persisted: bool) returns (r: Result<bool, PrefsError>)
      modifies this
      ensures Removed(old(Text()), fact).None? ==> r == Ok(false) && content == old(content)
      ensures Removed(old(Text()), fact).Some? && persisted ==>
                r == Ok(true) && content == Some(Removed(old(Text()), fact).value)
      ensures Removed(old(Text()), fact).Some? && !persisted ==> r == Err(Io) && content == old(content)
    {
      if content.None? {
        return Ok(false);
      }
      var lines := Lines(content.value);
      var target := Bullet(fact);
      var found := false;
      var filtered: seq<seq<byte>> := [];
      for i := 0 to |lines|
        invariant found <==> target in lines[..i]
        invariant filtered == Without(lines[..i], target)
      {
        assert lines[..i + 1][..i] == lines[..i] && lines[..i + 1][i] == lines[i];
        if lines[i] == target {
          found := true;
        } else {
          filtered := filtered + [lines[i]];
        }
      }
      assert lines[..|lines|] == lines;
      if !found {
        return Ok(false);
      }
      if !persisted {
        return Err(Io);
      }
      content := Some(Unlines(filtered));
      return Ok(true);
    }
  }

  // ----- The list of facts -----

  function Bullets(facts: seq<seq<byte>>): seq<seq<byte>> {
    seq(|facts|, i requires 0 <= i < |facts| => Bullet(facts[i]))
  }

  /** The file text that stands for a list of facts. */
  function Render(facts: seq<seq<byte>>): seq<byte> { Unlines(Bullets(facts)) }

  ghost predicate Distinct(facts: seq<seq<byte>>) {
    forall i, j | 0 <= i < j < |facts| :: facts[i] != facts[j]
  }

  ghost predicate FactList(facts: seq<seq<byte>>) {
    Distinct(facts) && forall f | f in facts :: SingleLine(f)
  }

  lemma BulletsSnoc(facts: seq<seq<byte>>, f: seq<byte>)
    ensures Bullets(facts + [f]) == Bullets(facts) + [Bullet(f)]
  {
  }

  lemma RenderSnoc(facts: seq<seq<byte>>, f: seq<byte>)
    ensures Render(facts + [f]) == Render(facts) + (Bullet(f) + [NL])
  {
    BulletsSnoc(facts, f);
    assert (Bullets(facts) + [Bullet(f)])[..|facts|] == Bullets(facts);
    assert Render(facts) + Bullet(f) + [NL] == Render(facts) + (Bullet(f) + [NL]);
  }

  lemma BulletLine(f: seq<byte>)
    requires SingleLine(f)
    ensures Lines(Bullet(f) + [NL]) == [Bullet(f)]
  {
    var b := Bullet(f);
    forall i | 0 <= i < |b| ensures b[i] != NL && b[i] != CR {
      assert i >= 2 ==> b[i] == f[i - 2] && f[i - 2] in f;
    }
    TextLines.SplitOne(b, NL, CR);
  }

  /** The lines of a rendered list are its bullets. */
  lemma {:induction false} LinesOfRender(facts: seq<seq<byte>>)
    requires forall f | f in facts :: SingleLine(f)
    ensures TextLines.Terminated(Render(facts), NL) && Lines(Render(facts)) == Bullets(facts)
  {
    if facts != [] {
      var rest, f := facts[..|facts| - 1], facts[|facts| - 1];
      assert facts == rest + [f];
      LinesOfRender(rest);
      RenderSnoc(rest, f);
      BulletsSnoc(rest, f);
      BulletLine(f);
      TextLines.SplitAppend(Render(rest), Bullet(f) + [NL], NL, CR);
    }
  }

  lemma BulletInjective(f: seq<byte>, g: seq<byte>)
    requires Bullet(f) == Bullet(g)
    ensures f == g
  {
    assert f == Bullet(f)[2..] && g == Bullet(g)[2..];
  }

  /** The file has a fact exactly when the list has it. */
  lemma HasFactOfRender(facts: seq<seq<byte>>, fact: seq<byte>)
    requires forall f | f in facts :: SingleLine(f)
    ensures HasFact(Render(facts), fact) <==> fact in facts
  {
    LinesOfRender(facts);
    if Bullet(fact) in Bullets(facts) {
      var i :| 0 <= i < |facts| && Bullets(facts)[i] == Bullet(fact);
      BulletInjective(facts[i], fact);
    }
    if fact in facts {
      var i :| 0 <= i < |facts| && facts[i] == fact;
      assert Bullets(facts)[i] == Bullet(fact);
    }
  }

  /** The facts other than `fact`, in order. */
  function Other(facts: seq<seq<byte>>, fact: seq<byte>): seq<seq<byte>> {
    if facts == [] then []
    else
      var rest := Other(facts[..|facts| - 1], fact);
      if facts[|facts| - 1] == fact then rest else rest + [facts[|facts| - 1]]
  }

  lemma {:induction false} WithoutBullets(facts: seq<seq<byte>>, fact: seq<byte>)
    ensures Without(Bullets(facts), Bullet(fact)) == Bullets(Other(facts, fact))
  {
    if facts != [] {
      var rest, f := facts[..|facts| - 1], facts[|facts| - 1];
      assert facts == rest + [f];
      WithoutBullets(rest, fact);
      BulletsSnoc(rest, f);
      assert (Bullets(rest) + [Bullet(f)])[..|rest|] == Bullets(rest);
      if f != fact {
        if Bullet(f) == Bullet(fact) {
          BulletInjective(f, fact);
        }
        BulletsSnoc(Other(rest, fact), f);
      }
    }
  }

  lemma {:induction false} OtherKeepsList(facts: seq<seq<byte>>, fact: seq<byte>)
    requires FactList(facts)
    ensures FactList(Other(facts, fact))
    ensures forall f :: f in Other(facts, fact) <==> f in facts && f != fact
  {
    if facts != [] {
      var rest, last := facts[..|facts| - 1], facts[|facts| - 1];
      assert facts == rest + [last];
      assert FactList(rest) by {
        assert forall f | f in rest :: f in facts;
      }
      OtherKeepsList(rest, fact);
      assert last !in rest by {
        assert forall i | 0 <= i < |rest| :: rest[i] == facts[i] != last;
      }
    }
  }

  // ----- Refinement over whole runs -----

  datatype Op = Append(fact: seq<byte>) | Remove(fact: seq<byte>)

  function TextStep(text: seq<byte>, op: Op): seq<byte> {
    match op
    case Append(f) => (match Appended(text, f) case Ok(t) => t case Err(_) => text)
    case Remove(f) => (match Removed(text, f) case Some(t) => t case None => text)
  }

  /** The same operation on the list of facts. */
  function ListStep(facts: seq<seq<byte>>, op: Op): seq<seq<byte>> {
    match op
    case Append(f) =>
      if !SingleLine(f) || f in facts || |Render(facts + [f])| > PREFS_MAX_BYTES then facts else facts + [f]
    case Remove(f) => Other(facts, f)
  }

  function TextAfter(text: seq<byte>, ops: seq<Op>): seq<byte>
    decreases |ops|
  {
    if ops == [] then text else TextAfter(TextStep(text, ops[0]), ops[1..])
  }

  function ListAfter(facts: seq<seq<byte>>, ops: seq<Op>): seq<seq<byte>>
    decreases |ops|
  {
    if ops == [] then facts else ListAfter(ListStep(facts, ops[0]), ops[1..])
  }

  lemma {:induction false} OtherOfAbsent(facts: seq<seq<byte>>, fact: seq<byte>)
    requires fact !in facts
    ensures Other(facts, fact) == facts
  {
    if facts != [] {
      OtherOfAbsent(facts[..|facts| - 1], fact);
    }
  }

  lemma {:induction false} RenderShrinks(facts: seq<seq<byte>>, fact: seq<byte>)
    ensures |Render(Other(facts, fact))| <= |Render(facts)|
  {
    if facts != [] {
      var rest, f := facts[..|facts| - 1], facts[|facts| - 1];
      assert facts == rest + [f];
      RenderShrinks(rest, fact);
      RenderSnoc(rest, f);
      RenderSnoc(Other(rest, fact), f);
    }
  }

  /** One operation on the text does what it does on the list. */
  lemma StepRefines(facts: seq<seq<byte>>, op: Op)
    requires FactList(facts) && |Render(facts)| <= PREFS_MAX_BYTES
    ensures TextStep(Render(facts), op) == Render(ListStep(facts, op))
    ensures FactList(ListStep(facts, op)) && |Render(ListStep(facts, op))| <= PREFS_MAX_BYTES
  {
    HasFactOfRender(facts, op.fact);
    RenderSnoc(facts, op.fact);
    match op
    case Append(f) =>
    case Remove(f) =>
      LinesOfRender(facts);
      WithoutBullets(facts, f);
      OtherKeepsList(facts, f);
      RenderShrinks(facts, f);
      if f !in facts {
        OtherOfAbsent(facts, f);
      }
  }

  lemma {:induction false} RunRefinesFrom(facts: seq<seq<byte>>, ops: seq<Op>)
    requires FactList(facts) && |Render(facts)| <= PREFS_MAX_BYTES
    ensures TextAfter(Render(facts), ops) == Render(ListAfter(facts, ops))
    ensures FactList(ListAfter(facts, ops)) && |Render(ListAfter(facts, ops))| <= PREFS_MAX_BYTES
    decreases |ops|
  {
    if ops != [] {
      StepRefines(facts, ops[0]);
      RunRefinesFrom(ListStep(facts, ops[0]), ops[1..]);
    }
  }

  /** From an empty file, after any operations, the text is the rendering of a list of distinct
      single-line facts and fits the size limit. */
  lemma RunRefines(ops: seq<Op>)
    ensures var facts := ListAfter([], ops);
            var text := TextAfter([], ops);
            text == Render(facts) && FactList(facts) && |text| <= PREFS_MAX_BYTES && Lines(text) == Bullets(facts)
  {
    assert Render([]) == [];
    RunRefinesFrom([], ops);
    LinesOfRender(ListAfter([], ops));
  }

  /** Removing a fact that was just appended restores the file byte for byte. */
  lemma RemoveUndoesAppend(facts: seq<seq<byte>>, fact: seq<byte>)
    requires FactList(facts) && |Render(facts)| <= PREFS_MAX_BYTES && fact !in facts
    requires Appended(Render(facts), fact).Ok?
    ensures Removed(Appended(Render(facts), fact).value, fact) == Some(Render(facts))
  {
    StepRefines(facts, Append(fact));
    var facts' := facts + [fact];
    HasFactOfRender(facts, fact);
    RenderSnoc(facts, fact);
    assert Appended(Render(facts), fact).value == Render(facts');
    HasFactOfRender(facts', fact);
    LinesOfRender(facts');
    WithoutBullets(facts', fact);
    assert facts'[..|facts|] == facts;
    OtherOfAbsent(facts, fact);
  }

  /** On any file, an appended new fact can be found again exactly when the file was empty or ended
      its last line; otherwise it is glued to the last line. */
  lemma AppendedCanBeFound(text: seq<byte>, fact: seq<byte>)
    requires SingleLine(fact) && !HasFact(text, fact)
    ensures HasFact(text + (Bullet(fact) + [NL]), fact) <==> TextLines.Terminated(text, NL)
  {
    var k := TextLines.LastLineStart(text, NL);
    var front, last := text[..k], text[k..];
    var line := Bullet(fact) + [NL];
    assert text == front + last && text + line == front + (last + line);
    TextLines.SplitAppend(front, last, NL, CR);
    TextLines.SplitAppend(front, last + line, NL, CR);
    BulletLine(fact);
    if last == [] {
      assert last + line == line;
      assert text == front;
    } else {
      assert !TextLines.Terminated(text, NL) by {
        assert text[|text| - 1] == last[|last| - 1] && last[|last| - 1] in last;
      }
      GluedLine(last, fact);
    }
  }

  lemma GluedLine(last: seq<byte>, fact: seq<byte>)
    requires SingleLine(fact) && NL !in last && last != []
    ensures Lines(last + (Bullet(fact) + [NL])) == [last + Bullet(fact)] && last + Bullet(fact) != Bullet(fact)
  {
    var whole := last + Bullet(fact);
    var b := Bullet(fact);
    assert forall i | 2 <= i < |b| :: b[i] == fact[i - 2] && fact[i - 2] in fact;
    assert NL !in whole;
    assert whole[|whole| - 1] == b[|b| - 1] != CR;
    TextLines.SplitOne(whole, NL, CR);
    assert last + (b + [NL]) == whole + [NL];
  }

  /** A witness: on the file `x`, without a newline, the appended fact `y` is lost. */
  lemma GluedFactIsLost()
    ensures Appended([0x78], [0x79]) == Ok([0x78, 0x2D, 0x20, 0x79, NL])
    ensures !HasFact([0x78, 0x2D, 0x20, 0x79, NL], [0x79])
  {
    var text, fact: seq<byte> := [0x78], [0x79];
    assert Lines(text) == [text];
    assert Bullet(fact) == [0x2D, 0x20, 0x79];
    AppendedCanBeFound(text, fact);
    assert text + (Bullet(fact) + [NL]) == [0x78, 0x2D, 0x20, 0x79, NL];
  }
}
