/**
 * The one-off repair of a defective data file before it is bulk-loaded
 * (import_gnaf.py lines 43-49). PostgreSQL's COPY text format treats a
 * backslash as an escape character, so the importer runs
 * `sed 's/\\/\\\\/g'` over the file: every backslash becomes two, which
 * COPY reads back as one literal backslash. Only the file whose base name
 * is `NSW_ADDRESS_SITE_psv.psv` is rewritten.
 */
module CopyEscaping {
  import opened PyText
  import opened TableNames

  /** Base name of the only file that is rewritten before loading. */
  const DefectiveFile: string := "NSW_ADDRESS_SITE_psv.psv"

  /**
   * The file selection at line 45, inside the loop over `Standard/` files:
   * an exact comparison of base names. The one file it selects is the New
   * South Wales part of table `ADDRESS_SITE`.
   */
  predicate NeedsEscaping(basename: string): (selected: bool)
    ensures selected ==> StandardTableName(basename) == "ADDRESS_SITE"
  {
    assert DefectiveFile == "NSW" + "_" + "ADDRESS_SITE" + PsvSuffix;
    AddressSiteTable("NSW");
    basename == DefectiveFile
  }

  /** Every state's `ADDRESS_SITE` file loads into table `ADDRESS_SITE`. */
  lemma AddressSiteTable(state: string)
    requires '_' !in state
    ensures StandardTableName(state + "_" + "ADDRESS_SITE" + PsvSuffix) == "ADDRESS_SITE"
  {
    var entity := "ADDRESS_SITE";
    assert entity[..|entity| - |PsvSuffix| + 1] == "ADDRE";
    AbsentWhenHeadAbsent(entity, PsvSuffix);
    assert entity[..7] == "ADDRESS";
    StandardTableNameOf(state, entity);
  }

  /**
   * Only one file is rewritten: the `ADDRESS_SITE` file of any other state
   * loads into the same table without escaping.
   */
  lemma OnlyNswAddressSite(state: string)
    requires '_' !in state && state != "NSW"
    ensures !NeedsEscaping(state + "_" + "ADDRESS_SITE" + PsvSuffix)
    ensures StandardTableName(state + "_" + "ADDRESS_SITE" + PsvSuffix) == "ADDRESS_SITE"
  {
    var tail := "_" + "ADDRESS_SITE" + PsvSuffix;
    OtherStateNotSelected(state, tail);
    assert state + "_" + "ADDRESS_SITE" + PsvSuffix == state + tail;
    AddressSiteTable(state);
  }

  /** Two names that share their tail are equal only if their heads are. */
  lemma OtherStateNotSelected(state: string, tail: string)
    requires tail == "_ADDRESS_SITE_psv.psv" && state != "NSW"
    ensures state + tail != DefectiveFile
  {
    if |state| == 3 {
      assert (state + tail)[..3] == state;
      assert DefectiveFile[..3] == "NSW";
    } else {
      assert |state + tail| != |DefectiveFile|;
    }
  }

  /** Number of backslashes in `s`. */
  function Backslashes(s: string): nat
  {
    multiset(s)['\\']
  }

  /** The substitution the sed command performs: each backslash doubled, every other character kept. */
  function DoubleBackslashes(s: string): (r: string)
    ensures |r| == |s| + Backslashes(s)
    ensures '\\' !in s ==> r == s
    decreases |s|
  {
    if s == [] then []
    else
      assert s == [s[0]] + s[1..];
      (if s[0] == '\\' then "\\\\" else [s[0]]) + DoubleBackslashes(s[1..])
  }

  /**
   * How COPY's text format reads a pair of backslashes: as one backslash.
   * This models only the reading of pairs. It is applied only to text whose
   * backslashes are all paired, because COPY reads a lone backslash as an
   * escape of the next character, which is not modelled.
   */
  function CollapsePairs(t: string): (r: string)
    ensures |r| <= |t|
    decreases |t|
  {
    if t == [] then []
    else if |t| >= 2 && t[0] == '\\' && t[1] == '\\' then "\\" + CollapsePairs(t[2..])
    else [t[0]] + CollapsePairs(t[1..])
  }

  /** Every backslash in `t` is the first of a pair, so COPY reads none of them as an escape. */
  predicate PairedBackslashes(t: string)
    decreases |t|
  {
    if t == [] then true
    else if t[0] == '\\' then |t| >= 2 && t[1] == '\\' && PairedBackslashes(t[2..])
    else PairedBackslashes(t[1..])
  }

  /** Doubling works character by character: it distributes over concatenation. */
  lemma {:induction false} DoubleBackslashesAppend(a: string, b: string)
    ensures DoubleBackslashes(a + b) == DoubleBackslashes(a) + DoubleBackslashes(b)
    decreases |a|
  {
    if a == [] {
      assert a + b == b;
    } else {
      assert (a + b)[1..] == a[1..] + b;
      DoubleBackslashesAppend(a[1..], b);
    }
  }

  /** The doubled text leaves no backslash unpaired. */
  lemma {:induction false} DoubledIsPaired(s: string)
    ensures PairedBackslashes(DoubleBackslashes(s))
    decreases |s|
  {
    if s != [] {
      DoubledIsPaired(s[1..]);
      var rest := DoubleBackslashes(s[1..]);
      if s[0] == '\\' {
        assert ("\\\\" + rest)[2..] == rest;
      } else {
        assert ([s[0]] + rest)[1..] == rest;
      }
    }
  }

  /** Reading the doubled text back restores the original contents. */
  lemma {:induction false} CollapseUndoesDoubling(s: string)
    ensures CollapsePairs(DoubleBackslashes(s)) == s
    decreases |s|
  {
    if s != [] {
      CollapseUndoesDoubling(s[1..]);
      var rest := DoubleBackslashes(s[1..]);
      if s[0] == '\\' {
        assert ("\\\\" + rest)[2..] == rest;
      } else {
        assert ([s[0]] + rest)[1..] == rest;
      }
      assert s == [s[0]] + s[1..];
    }
  }

  /** Conversely, a text with only paired backslashes is the doubling of what it reads as. */
  lemma {:induction false} DoublingUndoesCollapse(t: string)
    requires PairedBackslashes(t)
    ensures DoubleBackslashes(CollapsePairs(t)) == t
    decreases |t|
  {
    if t != [] {
      if t[0] == '\\' {
        DoublingUndoesCollapse(t[2..]);
        assert ("\\" + CollapsePairs(t[2..]))[1..] == CollapsePairs(t[2..]);
        assert t == "\\\\" + t[2..];
      } else {
        DoublingUndoesCollapse(t[1..]);
        assert ([t[0]] + CollapsePairs(t[1..]))[1..] == CollapsePairs(t[1..]);
        assert t == [t[0]] + t[1..];
      }
    }
  }

  /** `s/\\/\\\\/g` as a global substitution of the one-character pattern. */
  lemma {:induction false} DoublingIsGlobalSubstitution(s: string)
    ensures DoubleBackslashes(s) == ReplaceAll(s, "\\", "\\\\")
    decreases |s|
  {
    if s != [] {
      DoublingIsGlobalSubstitution(s[1..]);
      if s[0] == '\\' {
        assert s[..1] == "\\";
        ReplaceAllHit(s, "\\", "\\\\");
      } else {
        assert !StartsWith(s, "\\");
        ReplaceAllMiss(s, "\\", "\\\\");
      }
    }
  }

  /**
   * What a `Standard/` file holds when COPY reads it (lines 45-49): the
   * defective file with its backslashes doubled, any other file as it is.
   */
  function CopyInput(basename: string, contents: string): (loaded: string)
    ensures !NeedsEscaping(basename) ==> loaded == contents
    ensures NeedsEscaping(basename) ==>
      PairedBackslashes(loaded) && CollapsePairs(loaded) == contents
      && |loaded| == |contents| + Backslashes(contents)
  {
    if NeedsEscaping(basename) then
      DoubledIsPaired(contents);
      CollapseUndoesDoubling(contents);
      DoubleBackslashes(contents)
    else
      contents
  }

  /**
   * The rewrite is not idempotent: doubling the already doubled text, as a
   * second pass over the same file does, no longer reads back as the
   * original once it contains a backslash.
   */
  lemma ReescapingIsVisible(s: string)
    requires '\\' in s
    ensures CollapsePairs(DoubleBackslashes(DoubleBackslashes(s))) != s
  {
    CollapseUndoesDoubling(DoubleBackslashes(s));
    assert Backslashes(s) > 0;
  }
}
