/**
 * Destination table names derived from the names of the G-NAF data files
 * (import_gnaf.py lines 41 and 58). A standard file is named
 * `<STATE>_<ENTITY>_psv.psv` and loads into table `<ENTITY>`; an authority
 * code file is named `Authority_Code_<ENTITY>_psv.psv` and loads into
 * `<ENTITY>` as well.
 */
module TableNames {
  import opened PyText

  /** File-type suffix removed from every data file name. */
  const PsvSuffix: string := "_psv.psv"

  /** Prefix removed from every authority code file name. */
  const AuthorityPrefix: string := "Authority_Code_"

  /** `AuthorityPrefix` without its final underscore. */
  const AuthorityLabel: string := "Authority_Code"

  /**
   * `re.sub(r"^[^_]*_", "", s)`: the anchored pattern matches the longest
   * run of non-underscores at the start followed by the first underscore,
   * and removes that match once; with no underscore there is no match.
   */
  function StripStateLabel(s: string): (r: string)
    ensures EndsWith(s, r)
    ensures '_' !in s ==> r == s
    ensures '_' in s ==> |r| < |s| && s[|s| - |r| - 1] == '_' && '_' !in s[..|s| - |r| - 1]
    decreases |s|
  {
    if '_' !in s then s
    else if s[0] == '_' then s[1..]
    else
      var r := StripStateLabel(s[1..]);
      assert s[..|s| - |r| - 1] == [s[0]] + s[1..][..|s| - 1 - |r| - 1];
      r
  }

  /** Table name for a file found under `Standard/` (line 41). */
  function StandardTableName(basename: string): (table: string)
    ensures var stem := ReplaceAll(basename, PsvSuffix, "");
      EndsWith(stem, table) && ('_' in stem <==> |table| < |stem|) && ('_' !in stem ==> table == stem)
  {
    StripStateLabel(ReplaceAll(basename, PsvSuffix, ""))
  }

  /** Table name for a file found under `Authority Code/` (line 58). */
  function AuthorityTableName(basename: string): (table: string)
    ensures |table| <= |basename|
  {
    ReplaceAll(ReplaceAll(basename, AuthorityPrefix, ""), PsvSuffix, "")
  }

  /** The label ends at the first underscore, whatever follows it. */
  lemma StripStateLabelOf(state: string, rest: string)
    requires '_' !in state
    ensures StripStateLabel(state + "_" + rest) == rest
  {
    var s := state + "_" + rest;
    var r := StripStateLabel(s);
    var k := |s| - |r| - 1;
    assert s[|state|] == '_';
    assert k == |state|;
    assert s[k + 1..] == rest;
  }

  /** Facts about the constant strings that the lemmas below rely on. */
  lemma SuffixFacts()
    ensures PsvSuffix != [] && PsvSuffix[0] == '_' && '_' !in PsvSuffix[1..]
    ensures PsvSuffix[1..] == "psv.psv" && "_" + "psv.psv" == PsvSuffix
    ensures AuthorityPrefix[0] == 'A' && 'A' !in AuthorityPrefix[1..]
    ensures AuthorityPrefix[..14] == AuthorityLabel && AuthorityLabel + "_" == AuthorityPrefix
  {
  }

  /**
   * A standard file name loads into its entity part, underscores included,
   * whatever the state label. The entity must not contain the suffix and
   * must not begin with `psv.psv`, or `_psv.psv` would also match earlier.
   */
  lemma StandardTableNameOf(state: string, entity: string)
    requires '_' !in state
    requires !Contains(entity, PsvSuffix)
    requires !StartsWith(entity, "psv.psv")
    ensures StandardTableName(state + "_" + entity + PsvSuffix) == entity
  {
    SuffixFacts();
    var x := "_" + entity;
    assert !Contains(x, PsvSuffix) by {
      ContainsUnfold(x, PsvSuffix);
      assert x[1..] == entity;
    }
    RemoveTrailing(state, x, PsvSuffix);
    assert state + x + PsvSuffix == state + "_" + entity + PsvSuffix;
    assert state + x == state + "_" + entity;
    StripStateLabelOf(state, entity);
  }

  /** Two files that differ only in their state label load into the same table. */
  lemma StandardTableNameIgnoresState(state1: string, state2: string, entity: string)
    requires '_' !in state1 && '_' !in state2
    requires !Contains(entity, PsvSuffix)
    requires !StartsWith(entity, "psv.psv")
    ensures StandardTableName(state1 + "_" + entity + PsvSuffix)
         == StandardTableName(state2 + "_" + entity + PsvSuffix)
  {
    StandardTableNameOf(state1, entity);
    StandardTableNameOf(state2, entity);
  }

  /** Only the state label goes: the underscore inside the entity part stays. */
  lemma AddressDetailTable()
    ensures StandardTableName("NSW" + "_" + "ADDRESS_DETAIL" + PsvSuffix) == "ADDRESS_DETAIL"
  {
    var entity := "ADDRESS_DETAIL";
    assert entity[..|entity| - |PsvSuffix| + 1] == "ADDRESS";
    AbsentWhenHeadAbsent(entity, PsvSuffix);
    assert !StartsWith(entity, "psv.psv");
    StandardTableNameOf("NSW", entity);
  }

  /**
   * One way `StandardTableNameOf` fails for an entity beginning with
   * `psv.psv`: `_psv.psv` then also matches right after the state label.
   * When the state label and the remainder both lack underscores, the label
   * stays in the table name (`NSW_psv.psvX_psv.psv` gives `NSWX`).
   */
  lemma StandardTableNameEarlySuffix(state: string, rest: string)
    requires '_' !in state && '_' !in rest
    ensures StandardTableName(state + PsvSuffix + rest + PsvSuffix) == state + rest
  {
    SuffixFacts();
    AbsentWithoutHead(rest, PsvSuffix);
    RemoveTwoMatches(state, rest, PsvSuffix);
    assert '_' !in state + rest;
  }

  /**
   * `Authority_Code_` cannot reappear across the boundary between the entity
   * and `_psv.psv` unless the entity ends with `Authority_Code`.
   */
  lemma NoAuthorityPrefixBeforeSuffix(entity: string)
    requires !Contains(entity, AuthorityPrefix)
    requires !EndsWith(entity, AuthorityLabel)
    ensures !Contains(entity + PsvSuffix, AuthorityPrefix)
  {
    var s := entity + PsvSuffix;
    forall i | 0 <= i <= |s| - |AuthorityPrefix|
      ensures !OccursAt(s, AuthorityPrefix, i)
    {
      if i + |AuthorityPrefix| <= |entity| {
        assert s[i..i + |AuthorityPrefix|] == entity[i..i + |AuthorityPrefix|];
        assert !OccursAt(entity, AuthorityPrefix, i);
      } else {
        var d := |entity| - i;
        var w := s[i..i + |AuthorityPrefix|];
        assert 7 <= d <= 14;
        if d == 14 {
          assert w[..14] == entity[|entity| - 14..];
          assert AuthorityPrefix[..14] == AuthorityLabel;
        } else if d == 9 {
          assert w[10] == s[|entity| + 1] == 'p';
        } else {
          assert w[d] == s[|entity|] == '_';
        }
      }
    }
  }

  /**
   * An authority code file name loads into its entity part, provided the
   * entity itself contains neither removed string and does not end with
   * `Authority_Code`.
   */
  lemma AuthorityTableNameOf(entity: string)
    requires !Contains(entity, AuthorityPrefix)
    requires !Contains(entity, PsvSuffix)
    requires !EndsWith(entity, AuthorityLabel)
    ensures AuthorityTableName(AuthorityPrefix + entity + PsvSuffix) == entity
  {
    SuffixFacts();
    var t := entity + PsvSuffix;
    calc {
      ReplaceAll(AuthorityPrefix + entity + PsvSuffix, AuthorityPrefix, "");
      { assert AuthorityPrefix + entity + PsvSuffix == AuthorityPrefix + t; }
      ReplaceAll(AuthorityPrefix + t, AuthorityPrefix, "");
      { assert (AuthorityPrefix + t)[..|AuthorityPrefix|] == AuthorityPrefix;
        assert (AuthorityPrefix + t)[|AuthorityPrefix|..] == t;
        ReplaceAllHit(AuthorityPrefix + t, AuthorityPrefix, ""); }
      "" + ReplaceAll(t, AuthorityPrefix, "");
      { NoAuthorityPrefixBeforeSuffix(entity);
        ReplaceAllNoMatch(t, AuthorityPrefix, ""); }
      "" + t;
      { assert "" + t == t; }
      t;
    }
    RemoveTrailing([], entity, PsvSuffix);
    assert [] + entity + PsvSuffix == t && [] + entity == entity;
  }

  /**
   * Why `AuthorityTableNameOf` excludes an entity ending in `Authority_Code`:
   * the prefix then matches a second time, across the entity's end, and
   * takes the underscore of the suffix with it. Shown for a head with no
   * `A` and no underscore (`Authority_Code_XAuthority_Code_psv.psv` gives
   * `Xpsv.psv`).
   */
  lemma AuthorityTableNameBoundaryMatch(head: string)
    requires 'A' !in head && '_' !in head
    ensures AuthorityTableName(AuthorityPrefix + (head + AuthorityLabel) + PsvSuffix) == head + "psv.psv"
  {
    SuffixFacts();
    var ext := PsvSuffix[1..];
    AbsentWithoutHead(ext, AuthorityPrefix);
    calc {
      ReplaceAll(AuthorityPrefix + (head + AuthorityLabel) + PsvSuffix, AuthorityPrefix, "");
      { assert AuthorityPrefix + (head + AuthorityLabel) + PsvSuffix
            == [] + AuthorityPrefix + (head + AuthorityLabel + PsvSuffix); }
      ReplaceAll([] + AuthorityPrefix + (head + AuthorityLabel + PsvSuffix), AuthorityPrefix, "");
      { AbsentWhenHeadAbsent(AuthorityPrefix[..14], AuthorityPrefix);
        ReplaceAllFirstMatch([], AuthorityPrefix, head + AuthorityLabel + PsvSuffix, "");
        assert [] + "" + ReplaceAll(head + AuthorityLabel + PsvSuffix, AuthorityPrefix, "")
            == ReplaceAll(head + AuthorityLabel + PsvSuffix, AuthorityPrefix, ""); }
      ReplaceAll(head + AuthorityLabel + PsvSuffix, AuthorityPrefix, "");
      { assert head + AuthorityLabel + PsvSuffix == head + (AuthorityPrefix + ext); }
      ReplaceAll(head + (AuthorityPrefix + ext), AuthorityPrefix, "");
      { ReplaceAllSkipsPrefix(head, AuthorityPrefix + ext, AuthorityPrefix, ""); }
      head + ReplaceAll(AuthorityPrefix + ext, AuthorityPrefix, "");
      { assert (AuthorityPrefix + ext)[..|AuthorityPrefix|] == AuthorityPrefix;
        assert (AuthorityPrefix + ext)[|AuthorityPrefix|..] == ext;
        ReplaceAllHit(AuthorityPrefix + ext, AuthorityPrefix, ""); }
      head + ("" + ReplaceAll(ext, AuthorityPrefix, ""));
      { ReplaceAllNoMatch(ext, AuthorityPrefix, "");
        assert "" + ext == ext; }
      head + ext;
    }
    AbsentWithoutHead(head + ext, PsvSuffix);
    ReplaceAllNoMatch(head + ext, PsvSuffix, "");
  }
}
