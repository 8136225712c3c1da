/**
 What the merge engine promises: which keys end up mapped to what, which
 diagnostics land on which list and how many, and in which order the
 sources take precedence.
 */
module MergeProperties {
  import opened PhpStrings
  import opened MimeMerge

  // ------------------------------------------------------------ tokens

  lemma TokenExtsSnoc(front: seq<string>, last: string)
    ensures TokenExts(front + [last])
         == TokenExts(front) + (if IsEmptyToken(last) then {} else {NormalizedToken(last)})
  {
    var toks := front + [last];
    assert forall t :: t in toks <==> t in front || t == last;
  }

  /** A string whose first letter is not 'O' is no overwrite warning. */
  lemma NotOverwriteWarning(w: string)
    requires |w| > 0 && w[0] != 'O'
    ensures !IsOverwriteWarning(w)
  {
    assert OverwritePrefix[0] == 'O';
    if |OverwritePrefix| <= |w| {
      assert w[..|OverwritePrefix|][0] == w[0];
    }
  }

  /** The three kinds of warning `parse_file_ext_list` writes never coincide. */
  lemma WarningsDistinct(list: string, existing: string, ext: string, mime: string)
    ensures EmptyExtWarning(list) != LeadingDotWarning(list)
    ensures !IsOverwriteWarning(EmptyExtWarning(list))
    ensures !IsOverwriteWarning(LeadingDotWarning(list))
    ensures IsOverwriteWarning(OverwriteWarning(existing, ext, mime))
  {
    var empty, dot := EmptyExtWarning(list), LeadingDotWarning(list);
    assert empty[0] == 'E' && dot[0] == 'F';
    NotOverwriteWarning(empty);
    NotOverwriteWarning(dot);
    assert IsOverwriteWarning(OverwriteWarning(existing, ext, mime)) by {
      var w := OverwriteWarning(existing, ext, mime);
      assert w == OverwritePrefix + (existing + "' for file extension '." + ext + "' with new mime type '" + mime + "'.");
      assert w[..|OverwritePrefix|] == OverwritePrefix;
    }
  }

  // ---------------------------------------------------- parse_file_ext_list

  lemma ConstMapAdd(m: map<string, string>, keys: set<string>, e: string, v: string)
    ensures (m + ConstMap(keys, v))[e := v] == m + ConstMap(keys + {e}, v)
  {
  }

  /**
   After the loop every surviving token maps to the given type (the last
   write wins, and they all write the same type) and every other key keeps
   its value.
   */
  lemma {:induction false} AddExtsMimes(list: string, mime: string, ow: set<string>, toks: seq<string>, a: Merged)
    ensures AddExts(list, mime, ow, toks, a).mimes == a.mimes + ConstMap(TokenExts(toks), mime)
    decreases |toks|
  {
    if toks == [] {
      assert TokenExts(toks) == {};
    } else {
      var front, last := toks[..|toks| - 1], toks[|toks| - 1];
      assert toks == front + [last];
      AddExtsMimes(list, mime, ow, front, a);
      TokenExtsSnoc(front, last);
      var b := AddExts(list, mime, ow, front, a);
      assert AddExts(list, mime, ow, toks, a).mimes == AddExt(list, mime, ow, last, b).mimes;
      if IsEmptyToken(last) {
        assert TokenExts(toks) == TokenExts(front);
      } else {
        assert TokenExts(toks) == TokenExts(front) + {NormalizedToken(last)};
        ConstMapAdd(a.mimes, TokenExts(front), NormalizedToken(last), mime);
      }
    }
  }

  /** The warnings one token appends, in the terms of AddExtsWarnings. */
  lemma TokenWarningsKinds(list: string, mime: string, ow: set<string>, tok: string, m: map<string, string>)
    ensures var extra := TokenWarnings(list, mime, ow, tok, m);
      && multiset(extra)[EmptyExtWarning(list)] == (if IsEmptyToken(tok) then 1 else 0)
      && multiset(extra)[LeadingDotWarning(list)] == (if IsDottedToken(tok) then 1 else 0)
      && forall w :: w in extra ==>
           w == EmptyExtWarning(list) || w == LeadingDotWarning(list) || IsOverwriteWarning(w)
  {
    var extra := TokenWarnings(list, mime, ow, tok, m);
    if !IsEmptyToken(tok) {
      var t := Trim(tok);
      var ext := StripDot(t);
      var existing := Lookup(m, ext);
      WarningsDistinct(list, existing, ext, mime);
      var dot: seq<string> := if t[0] == '.' then [LeadingDotWarning(list)] else [];
      var over: seq<string> :=
        if ext !in ow && !Empty(existing) && mime != existing then [OverwriteWarning(existing, ext, mime)] else [];
      assert extra == dot + over;
      assert multiset(over)[EmptyExtWarning(list)] == 0;
      assert multiset(over)[LeadingDotWarning(list)] == 0;
      forall w | w in extra
        ensures w == EmptyExtWarning(list) || w == LeadingDotWarning(list) || IsOverwriteWarning(w)
      {
        if w !in dot {
          assert w in over;
        }
      }
    } else {
      WarningsDistinct(list, "", "", mime);
    }
  }

  /** Appending `extra` to a list that starts with `aw`: `aw` stays in front and the tail gains `extra`. */
  lemma AppendWarnings(aw: seq<string>, bw: seq<string>, extra: seq<string>)
    requires |aw| <= |bw| && bw[..|aw|] == aw
    ensures |aw| <= |bw + extra| && (bw + extra)[..|aw|] == aw
    ensures (bw + extra)[|aw|..] == bw[|aw|..] + extra
    ensures multiset((bw + extra)[|aw|..]) == multiset(bw[|aw|..]) + multiset(extra)
  {
    assert (bw + extra)[|aw|..] == bw[|aw|..] + extra;
    assert (bw + extra)[..|aw|] == bw[..|aw|];
  }

  /**
   The warnings the loop appends: one "Empty file extension" per empty
   token, one "leading dot" per dotted token, and otherwise only overwrite
   warnings; whatever was on the list before stays in front.
   */
  lemma {:induction false} AddExtsWarnings(list: string, mime: string, ow: set<string>, toks: seq<string>, a: Merged)
    ensures var r := AddExts(list, mime, ow, toks, a);
      && |a.warns| <= |r.warns|
      && r.warns[..|a.warns|] == a.warns
      && multiset(r.warns[|a.warns|..])[EmptyExtWarning(list)] == EmptyTokenCount(toks)
      && multiset(r.warns[|a.warns|..])[LeadingDotWarning(list)] == DottedTokenCount(toks)
      && forall w :: w in r.warns[|a.warns|..] ==>
           w == EmptyExtWarning(list) || w == LeadingDotWarning(list) || IsOverwriteWarning(w)
    decreases |toks|
  {
    if toks != [] {
      var front, last := toks[..|toks| - 1], toks[|toks| - 1];
      AddExtsWarnings(list, mime, ow, front, a);
      var b := AddExts(list, mime, ow, front, a);
      var extra := TokenWarnings(list, mime, ow, last, b.mimes);
      TokenWarningsKinds(list, mime, ow, last, b.mimes);
      AppendWarnings(a.warns, b.warns, extra);
      var r := AddExt(list, mime, ow, last, b);
      assert r.warns == b.warns + extra;
    }
  }

  /**
   Whether the token `last`, after the tokens `front`, draws an overwrite
   warning: its extension is new to the list, not suppressed, and replaces
   a different non-empty type of the original map `m`.
   */
  predicate NewOverwrite(mime: string, ow: set<string>, front: seq<string>, last: string, m: map<string, string>)
  {
    var e := NormalizedToken(last);
    !IsEmptyToken(last) && e !in TokenExts(front) && e !in ow && !Empty(Lookup(m, e)) && Lookup(m, e) != mime
  }

  /**
   One more token, seen against the map the earlier tokens `front` left:
   its warnings are the empty-token or leading-dot warning it earns, then
   an overwrite warning exactly when NewOverwrite holds.
   */
  lemma OverwriteStepWarnings(list: string, mime: string, ow: set<string>, front: seq<string>, last: string, a: Merged)
    ensures var b := AddExts(list, mime, ow, front, a);
      var e := NormalizedToken(last);
      TokenWarnings(list, mime, ow, last, b.mimes)
        == (if IsEmptyToken(last) then [EmptyExtWarning(list)] else [])
           + (if IsDottedToken(last) then [LeadingDotWarning(list)] else [])
           + (if NewOverwrite(mime, ow, front, last, a.mimes) then [OverwriteWarning(Lookup(a.mimes, e), e, mime)] else [])
  {
    var b := AddExts(list, mime, ow, front, a);
    AddExtsMimes(list, mime, ow, front, a);
    var e := NormalizedToken(last);
    var t := Trim(last);
    if Empty(t) {
      assert TokenWarnings(list, mime, ow, last, b.mimes) == [EmptyExtWarning(list)];
    } else {
      var existing := Lookup(b.mimes, e);
      var dot: seq<string> := if t[0] == '.' then [LeadingDotWarning(list)] else [];
      var over: seq<string> :=
        if NewOverwrite(mime, ow, front, last, a.mimes) then [OverwriteWarning(Lookup(a.mimes, e), e, mime)] else [];
      assert TokenWarnings(list, mime, ow, last, b.mimes) == dot + over by {
        assert existing == if e in TokenExts(front) then mime else Lookup(a.mimes, e);
      }
      assert [] + dot + over == dot + over;
    }
  }

  /** The overwritten set gains at most the extension of one more token, when NewOverwrite holds. */
  lemma OverwriteStepSet(mime: string, ow: set<string>, front: seq<string>, last: string, m: map<string, string>)
    ensures var e := NormalizedToken(last);
      var o0 := OverwrittenExts(TokenExts(front), mime, ow, m);
      && OverwrittenExts(TokenExts(front + [last]), mime, ow, m)
           == o0 + (if NewOverwrite(mime, ow, front, last, m) then {e} else {})
      && (NewOverwrite(mime, ow, front, last, m) ==> e !in o0)
  {
    TokenExtsSnoc(front, last);
  }

  /**
   The number of warnings the loop appends: one per empty token, one per
   dotted token, and one per extension in the overwritten set, judged
   against the map as it was before the list.
   */
  lemma {:induction false} AddExtsOverwriteCount(list: string, mime: string, ow: set<string>, toks: seq<string>, a: Merged)
    ensures |AddExts(list, mime, ow, toks, a).warns| == |a.warns| + EmptyTokenCount(toks) + DottedTokenCount(toks)
              + |OverwrittenExts(TokenExts(toks), mime, ow, a.mimes)|
    decreases |toks|
  {
    if toks == [] {
      assert OverwrittenExts(TokenExts(toks), mime, ow, a.mimes) == {};
    } else {
      var front, last := toks[..|toks| - 1], toks[|toks| - 1];
      assert toks == front + [last];
      AddExtsOverwriteCount(list, mime, ow, front, a);
      OverwriteStepWarnings(list, mime, ow, front, last, a);
      OverwriteStepSet(mime, ow, front, last, a.mimes);
      assert IsEmptyToken(last) ==> !IsDottedToken(last);
    }
  }

  /**
   Every extension in the overwritten set gets its overwrite warning,
   naming the type it had before the list.
   */
  lemma {:induction false} AddExtsOverwriteComplete(list: string, mime: string, ow: set<string>, toks: seq<string>, a: Merged)
    ensures var r := AddExts(list, mime, ow, toks, a);
      && |a.warns| <= |r.warns|
      && forall e :: e in OverwrittenExts(TokenExts(toks), mime, ow, a.mimes) ==>
           OverwriteWarning(Lookup(a.mimes, e), e, mime) in r.warns[|a.warns|..]
    decreases |toks|
  {
    if toks == [] {
      assert OverwrittenExts(TokenExts(toks), mime, ow, a.mimes) == {};
    } else {
      var front, last := toks[..|toks| - 1], toks[|toks| - 1];
      assert toks == front + [last];
      AddExtsOverwriteComplete(list, mime, ow, front, a);
      var b := AddExts(list, mime, ow, front, a);
      var extra := TokenWarnings(list, mime, ow, last, b.mimes);
      var r := AddExt(list, mime, ow, last, b);
      assert r == AddExts(list, mime, ow, toks, a);
      assert |a.warns| <= |b.warns| by {
        AddExtsWarnings(list, mime, ow, front, a);
      }
      assert r.warns[|a.warns|..] == b.warns[|a.warns|..] + extra;
      var e := NormalizedToken(last);
      var o0 := OverwrittenExts(TokenExts(front), mime, ow, a.mimes);
      var o1 := OverwrittenExts(TokenExts(toks), mime, ow, a.mimes);
      assert o1 == o0 + (if NewOverwrite(mime, ow, front, last, a.mimes) then {e} else {}) by {
        OverwriteStepSet(mime, ow, front, last, a.mimes);
      }
      assert NewOverwrite(mime, ow, front, last, a.mimes) ==> OverwriteWarning(Lookup(a.mimes, e), e, mime) in extra by {
        OverwriteStepWarnings(list, mime, ow, front, last, a);
      }
      forall d | d in o1
        ensures OverwriteWarning(Lookup(a.mimes, d), d, mime) in r.warns[|a.warns|..]
      {
        if d !in o0 {
          assert d == e;
        }
      }
    }
  }

  /** The only overwrite warning one token can add is the one for its own, newly overwritten, extension. */
  lemma OverwriteStepSound(list: string, mime: string, ow: set<string>, front: seq<string>, last: string, a: Merged)
    ensures var extra := TokenWarnings(list, mime, ow, last, AddExts(list, mime, ow, front, a).mimes);
      var e := NormalizedToken(last);
      forall w :: w in extra && IsOverwriteWarning(w) ==>
        NewOverwrite(mime, ow, front, last, a.mimes) && w == OverwriteWarning(Lookup(a.mimes, e), e, mime)
  {
    OverwriteStepWarnings(list, mime, ow, front, last, a);
    WarningsDistinct(list, "", "", mime);
  }

  /** Every overwrite warning the loop appends belongs to an extension of the overwritten set. */
  lemma {:induction false} AddExtsOverwriteSound(list: string, mime: string, ow: set<string>, toks: seq<string>, a: Merged)
    ensures var r := AddExts(list, mime, ow, toks, a);
      && |a.warns| <= |r.warns|
      && forall w :: w in r.warns[|a.warns|..] && IsOverwriteWarning(w) ==>
           exists e :: e in OverwrittenExts(TokenExts(toks), mime, ow, a.mimes) && w == OverwriteWarning(Lookup(a.mimes, e), e, mime)
    decreases |toks|
  {
    if toks == [] {
      assert a.warns[|a.warns|..] == [];
    } else {
      var front, last := toks[..|toks| - 1], toks[|toks| - 1];
      assert toks == front + [last];
      AddExtsOverwriteSound(list, mime, ow, front, a);
      var b := AddExts(list, mime, ow, front, a);
      var extra := TokenWarnings(list, mime, ow, last, b.mimes);
      var r := AddExt(list, mime, ow, last, b);
      assert r == AddExts(list, mime, ow, toks, a);
      assert |a.warns| <= |b.warns| by {
        AddExtsWarnings(list, mime, ow, front, a);
      }
      assert r.warns[|a.warns|..] == b.warns[|a.warns|..] + extra;
      var e := NormalizedToken(last);
      var o0 := OverwrittenExts(TokenExts(front), mime, ow, a.mimes);
      var o1 := OverwrittenExts(TokenExts(toks), mime, ow, a.mimes);
      assert o0 <= o1 && (NewOverwrite(mime, ow, front, last, a.mimes) ==> e in o1) by {
        OverwriteStepSet(mime, ow, front, last, a.mimes);
      }
      assert forall w :: w in extra && IsOverwriteWarning(w) ==> e in o1 && w == OverwriteWarning(Lookup(a.mimes, e), e, mime) by {
        OverwriteStepSound(list, mime, ow, front, last, a);
      }
      OverwriteSourcesAppend(b.warns[|a.warns|..], extra, o0, o1, e, mime, a.mimes);
    }
  }

  /** Appending warnings that all come from `o1` to warnings that come from `o0 <= o1`. */
  lemma OverwriteSourcesAppend(p: seq<string>, extra: seq<string>, o0: set<string>, o1: set<string>, e: string, mime: string, m: map<string, string>)
    requires o0 <= o1
    requires forall w :: w in p && IsOverwriteWarning(w) ==>
               exists d :: d in o0 && w == OverwriteWarning(Lookup(m, d), d, mime)
    requires forall w :: w in extra && IsOverwriteWarning(w) ==> e in o1 && w == OverwriteWarning(Lookup(m, e), e, mime)
    ensures forall w :: w in p + extra && IsOverwriteWarning(w) ==>
              exists d :: d in o1 && w == OverwriteWarning(Lookup(m, d), d, mime)
  {
    forall w | w in p + extra && IsOverwriteWarning(w)
      ensures exists d :: d in o1 && w == OverwriteWarning(Lookup(m, d), d, mime)
    {
      if w in p {
        var d :| d in o0 && w == OverwriteWarning(Lookup(m, d), d, mime);
        assert d in o1;
      } else {
        assert e in o1 && w == OverwriteWarning(Lookup(m, e), e, mime);
      }
    }
  }

  /**
   When every listed extension already maps to the given type, the loop
   changes no key and adds no overwrite warning: only the empty-token and
   leading-dot warnings, one per such token.
   */
  lemma {:induction false} AddExtsSilent(list: string, mime: string, ow: set<string>, toks: seq<string>, a: Merged)
    requires forall e :: e in TokenExts(toks) ==> e in a.mimes && a.mimes[e] == mime
    ensures AddExts(list, mime, ow, toks, a).mimes == a.mimes
    ensures |AddExts(list, mime, ow, toks, a).warns| == |a.warns| + EmptyTokenCount(toks) + DottedTokenCount(toks)
    decreases |toks|
  {
    if toks != [] {
      var front, last := toks[..|toks| - 1], toks[|toks| - 1];
      assert toks == front + [last];
      TokenExtsSnoc(front, last);
      AddExtsSilent(list, mime, ow, front, a);
      var b := AddExts(list, mime, ow, front, a);
      if !IsEmptyToken(last) {
        var ext := NormalizedToken(last);
        assert ext in TokenExts(toks);
        assert b.mimes[ext := mime] == b.mimes;
      }
    }
  }

  /** A list that is empty once trimmed changes nothing. */
  lemma FileExtListBlank(list: string, mime: string, ow: set<string>, a: Merged)
    requires Empty(Trim(list))
    ensures FileExtList(list, mime, ow, a) == a
  {
  }

  /** `parse_file_ext_list` in full: its effect on the map and on both lists. */
  lemma FileExtListEffect(list: string, mime: string, ow: set<string>, a: Merged)
    ensures var r := FileExtList(list, mime, ow, a);
      && r.mimes == a.mimes + ConstMap(ExtSet(list), mime)
      && r.errors == a.errors
      && |a.warns| <= |r.warns| && r.warns[..|a.warns|] == a.warns
      && multiset(r.warns[|a.warns|..])[EmptyExtWarning(Trim(list))] == EmptyTokenCount(Tokens(list))
      && multiset(r.warns[|a.warns|..])[LeadingDotWarning(Trim(list))] == DottedTokenCount(Tokens(list))
    ensures var r := FileExtList(list, mime, ow, a);
      var o := OverwrittenExts(ExtSet(list), mime, ow, a.mimes);
      && |r.warns| == |a.warns| + EmptyTokenCount(Tokens(list)) + DottedTokenCount(Tokens(list)) + |o|
      && (forall e :: e in o ==> OverwriteWarning(Lookup(a.mimes, e), e, mime) in r.warns[|a.warns|..])
      && (forall w :: w in r.warns[|a.warns|..] && IsOverwriteWarning(w) ==>
            exists e :: e in o && w == OverwriteWarning(Lookup(a.mimes, e), e, mime))
  {
    AddExtsMimes(Trim(list), mime, ow, Tokens(list), a);
    AddExtsWarnings(Trim(list), mime, ow, Tokens(list), a);
    AddExtsOverwriteCount(Trim(list), mime, ow, Tokens(list), a);
    AddExtsOverwriteComplete(Trim(list), mime, ow, Tokens(list), a);
    AddExtsOverwriteSound(Trim(list), mime, ow, Tokens(list), a);
  }

  /**
   A single plain extension: the map gets exactly that entry, and an
   overwrite warning is appended exactly when the extension is not in the
   suppression set, the existing value is non-empty and it differs from the
   new type.
   */
  lemma FileExtListSingle(list: string, mime: string, ow: set<string>, a: Merged)
    requires var l := Trim(list); !Empty(l) && ',' !in l && l[0] != '.'
    ensures var l := Trim(list); var r := FileExtList(list, mime, ow, a);
      && r.mimes == a.mimes[l := mime]
      && r.errors == a.errors
      && r.warns == a.warns +
           (if l !in ow && !Empty(Lookup(a.mimes, l)) && Lookup(a.mimes, l) != mime
            then [OverwriteWarning(Lookup(a.mimes, l), l, mime)] else [])
  {
    var l := Trim(list);
    ExplodeNoSeparator(',', l);
    TrimIdempotent(list);
    var toks := Tokens(list);
    assert toks == [l];
    assert toks[..0] == [];
    assert AddExts(l, mime, ow, toks[..0], a) == a;
    assert FileExtList(list, mime, ow, a) == AddExts(l, mime, ow, toks, a);
    assert AddExts(l, mime, ow, toks, a) == AddExt(l, mime, ow, l, a);
    assert NormalizedToken(l) == l;
    assert TokenWarnings(l, mime, ow, l, a.mimes)
        == [] + (if l !in ow && !Empty(Lookup(a.mimes, l)) && Lookup(a.mimes, l) != mime
                 then [OverwriteWarning(Lookup(a.mimes, l), l, mime)] else []);
  }

  /**
   Applying the same list with the same type a second time leaves the map
   as the first application left it and adds no overwrite warning.
   */
  lemma FileExtListReapply(list: string, mime: string, ow: set<string>, a: Merged)
    ensures var r1 := FileExtList(list, mime, ow, a);
      var r2 := FileExtList(list, mime, ow, r1);
      && r2.mimes == r1.mimes
      && r2.errors == r1.errors
      && |r2.warns| == |r1.warns| + EmptyTokenCount(Tokens(list)) + DottedTokenCount(Tokens(list))
  {
    var r1 := FileExtList(list, mime, ow, a);
    AddExtsMimes(Trim(list), mime, ow, Tokens(list), a);
    AddExtsSilent(Trim(list), mime, ow, Tokens(list), r1);
  }

  lemma CommaListTokens()
    ensures Trim(",a,") == ",a,"
    ensures Tokens(",a,") == ["", "a", ""]
  {
    TrimNoop(",a,");
    ExplodeJoin(',', ["", "a", ""]);
    assert Join(',', ["", "a", ""]) == ",a,";
  }

  /** The list ",a,": two empty-token warnings, nothing else, and the one key "a". */
  lemma FileExtListEmptyTokens(mime: string, ow: set<string>)
    ensures var r := FileExtList(",a,", mime, ow, Merged(map[], [], []));
      && r.mimes == map["a" := mime]
      && r.warns == [EmptyExtWarning(",a,"), EmptyExtWarning(",a,")]
      && r.errors == []
  {
    var list := ",a,";
    var a0 := Merged(map[], [], []);
    CommaListTokens();
    var toks := ["", "a", ""];
    assert toks[..2][..1] == [""] && toks[..2] == ["", "a"] && toks[..1][..0] == [];
    var a1 := AddExts(list, mime, ow, toks[..1], a0);
    assert a1 == Merged(map[], [EmptyExtWarning(list)], []) by {
      assert a1 == AddExt(list, mime, ow, "", a0);
    }
    var a2 := AddExts(list, mime, ow, toks[..2], a0);
    assert a2 == Merged(map["a" := mime], [EmptyExtWarning(list)], []) by {
      TrimNoop("a");
      assert a2 == AddExt(list, mime, ow, "a", a1);
      assert TokenWarnings(list, mime, ow, "a", a1.mimes) == [];
    }
    assert FileExtList(list, mime, ow, a0) == AddExt(list, mime, ow, "", a2);
  }

  /**
   The list ".txt": the key "txt" and one leading-dot warning. The list
   ".": the dot is stripped after the empty check, so the key is "".
   */
  lemma FileExtListLeadingDot(mime: string, ow: set<string>)
    ensures var r := FileExtList(".txt", mime, ow, Merged(map[], [], []));
      && r.mimes == map["txt" := mime]
      && r.warns == [LeadingDotWarning(".txt")]
    ensures var r := FileExtList(".", mime, ow, Merged(map[], [], []));
      && r.mimes == map["" := mime]
      && r.warns == [LeadingDotWarning(".")]
  {
    TrimNoop(".txt");
    ExplodeNoSeparator(',', ".txt");
    assert Tokens(".txt") == [".txt"];
    assert Tokens(".txt")[..0] == [];
    assert StripDot(".txt") == "txt";
    TrimNoop(".");
    ExplodeNoSeparator(',', ".");
    assert Tokens(".") == ["."];
    assert Tokens(".")[..0] == [];
    assert StripDot(".") == "";
  }

  // ----------------------------------------------- parse_mime_type_listing

  /**
   Blank lines and comments change nothing; a line whose number of colons
   is not one adds exactly one "Invalid" error and nothing else.
   */
  lemma ListingLineRejects(line: string, ow: set<string>, a: Merged)
    ensures var t := Trim(line);
      (Empty(t) || t[0] == '#') ==> ListingLine(line, ow, a) == a
    ensures var t := Trim(line);
      (!Empty(t) && t[0] != '#' && CountChar(':', t) != 1) ==>
        ListingLine(line, ow, a) == a.(errors := a.errors + [InvalidLineError(t)])
  {
  }

  /**
   A line of the shape `exts:mimePart` with exactly one colon: an empty
   type adds exactly one "No mime type" error; otherwise the extension list
   is merged with the trimmed type.
   */
  lemma ListingLineEntry(line: string, exts: string, mimePart: string, ow: set<string>, a: Merged)
    requires Trim(line) == exts + ":" + mimePart
    requires ':' !in exts && ':' !in mimePart
    requires exts == [] || exts[0] != '#'
    ensures Empty(Trim(mimePart)) ==>
      ListingLine(line, ow, a) == a.(errors := a.errors + [NoMimeTypeError(Trim(line))])
    ensures !Empty(Trim(mimePart)) ==>
      ListingLine(line, ow, a) == FileExtList(exts, Trim(mimePart), ow, a)
  {
    var t := Trim(line);
    ExplodeJoin(':', [exts, mimePart]);
    assert Join(':', [exts, mimePart]) == t;
    assert t[0] != '#' by {
      if exts == [] { assert t[0] == ':'; } else { assert t[0] == exts[0]; }
    }
    assert !Empty(t) by { assert ':' in t; }
  }

  /** One line's effect on the map and on the error list. */
  lemma ListingLineEffect(line: string, ow: set<string>, a: Merged)
    ensures var r := ListingLine(line, ow, a);
      && r.mimes == a.mimes + LineMap(line)
      && |r.errors| == |a.errors| + (if IsMalformedLine(line) then 1 else 0)
      && r.errors[..|a.errors|] == a.errors
      && |a.warns| <= |r.warns| && r.warns[..|a.warns|] == a.warns
  {
    match ClassifyLine(line)
    case Entry(exts, mime) =>
      FileExtListEffect(exts, mime, ow, a);
    case Skipped =>
      assert a.mimes + map[] == a.mimes;
    case _ =>
      assert a.mimes + map[] == a.mimes;
  }

  lemma MapUnionAssoc(m: map<string, string>, x: map<string, string>, y: map<string, string>)
    ensures (m + x) + y == m + (x + y)
  {
  }

  /**
   A whole listing: the map receives exactly the entries of its well-formed
   lines, later lines winning; the error list grows by one per malformed
   line, behind the errors already there.
   */
  lemma {:induction false} ListingEffect(lines: seq<string>, ow: set<string>, a: Merged)
    ensures var r := Listing(lines, ow, a);
      && r.mimes == a.mimes + ListingMap(lines)
      && |r.errors| == |a.errors| + MalformedLineCount(lines)
      && r.errors[..|a.errors|] == a.errors
      && |a.warns| <= |r.warns| && r.warns[..|a.warns|] == a.warns
    decreases |lines|
  {
    if lines == [] {
      assert a.mimes + map[] == a.mimes;
    } else {
      var front, last := lines[..|lines| - 1], lines[|lines| - 1];
      ListingEffect(front, ow, a);
      var b := Listing(front, ow, a);
      ListingLineEffect(last, ow, b);
      MapUnionAssoc(a.mimes, ListingMap(front), LineMap(last));
      var r := ListingLine(last, ow, b);
      assert r == Listing(lines, ow, a);
      assert r.errors[..|a.errors|] == r.errors[..|b.errors|][..|a.errors|];
      assert r.warns[..|a.warns|] == r.warns[..|b.warns|][..|a.warns|];
    }
  }

  lemma PhpListTrim()
    ensures Trim("php,phtml ") == "php,phtml"
  {
    assert "php,phtml " == "php,phtml" + [' '];
    TrimSnoc("php,phtml", ' ');
  }

  lemma PhpListTokens()
    ensures Tokens("php,phtml ") == ["php", "phtml"]
  {
    PhpListTrim();
    ExplodeJoin(',', ["php", "phtml"]);
    assert Join(',', ["php", "phtml"]) == "php,phtml";
  }

  lemma PhpTokenExts()
    ensures TokenExts(["php", "phtml"]) == {"php", "phtml"}
  {
    assert TokenExts(["php"]) == {"php"} by {
      TrimNoop("php");
      TokenExtsSnoc([], "php");
      assert [] + ["php"] == ["php"];
    }
    assert ["php"] + ["phtml"] == ["php", "phtml"];
    TrimNoop("phtml");
    TokenExtsSnoc(["php"], "phtml");
  }

  lemma PhpListExts()
    ensures ExtSet("php,phtml ") == {"php", "phtml"}
  {
    PhpListTokens();
    PhpTokenExts();
  }

  lemma PhpLineTrim()
    ensures Trim("php,phtml " + ":" + " application/x-httpd-php") == "php,phtml " + ":" + " application/x-httpd-php"
  {
    TrimNoop("php,phtml " + ":" + " application/x-httpd-php");
  }

  lemma PhpMimeTrim()
    ensures Trim(" application/x-httpd-php") == "application/x-httpd-php"
  {
    TrimCons(' ', "application/x-httpd-php");
    TrimNoop("application/x-httpd-php");
  }

  lemma PhpLineEntry(ow: set<string>, a: Merged)
    ensures ListingLine("php,phtml " + ":" + " application/x-httpd-php", ow, a)
         == FileExtList("php,phtml ", "application/x-httpd-php", ow, a)
  {
    PhpLineTrim();
    PhpMimeTrim();
    assert ':' !in "php,phtml ";
    assert ':' !in " application/x-httpd-php";
    ListingLineEntry("php,phtml " + ":" + " application/x-httpd-php", "php,phtml ", " application/x-httpd-php", ow, a);
  }

  lemma PhpLineMimes(ow: set<string>, a: Merged)
    ensures var r := ListingLine("php,phtml " + ":" + " application/x-httpd-php", ow, a);
      r.mimes == a.mimes + ConstMap(ExtSet("php,phtml "), "application/x-httpd-php") && r.errors == a.errors
  {
    PhpLineEntry(ow, a);
    AddExtsMimes(Trim("php,phtml "), "application/x-httpd-php", ow, Tokens("php,phtml "), a);
  }

  /**
   The line "php,phtml : application/x-httpd-php" maps both extensions to
   that type (PhpLineMimes: and changes no other key) and reports nothing.
   */
  lemma ListingExample(ow: set<string>, a: Merged)
    ensures var r := ListingLine("php,phtml " + ":" + " application/x-httpd-php", ow, a);
      && "php" in r.mimes && r.mimes["php"] == "application/x-httpd-php"
      && "phtml" in r.mimes && r.mimes["phtml"] == "application/x-httpd-php"
      && r.errors == a.errors
  {
    PhpLineMimes(ow, a);
    PhpListExts();
  }

  /** The lines "badline" and "a:b:c" each add one error and nothing else. */
  lemma ListingInvalidExamples(ow: set<string>, a: Merged)
    ensures ListingLine("badline", ow, a) == a.(errors := a.errors + [InvalidLineError("badline")])
    ensures ListingLine("a:b:c", ow, a) == a.(errors := a.errors + [InvalidLineError("a:b:c")])
  {
    assert ListingLine("badline", ow, a) == a.(errors := a.errors + [InvalidLineError("badline")]) by {
      TrimNoop("badline");
      ListingLineRejects("badline", ow, a);
    }
    assert ListingLine("a:b:c", ow, a) == a.(errors := a.errors + [InvalidLineError("a:b:c")]) by {
      TrimNoop("a:b:c");
      ListingLineRejects("a:b:c", ow, a);
    }
  }

  // ------------------------------------------------------- init_mime_types

  /** The two suppression diagnostics are different strings. */
  lemma SuppressionErrorsDistinct()
    ensures EmptySuppressedExtError != LeadingDotSuppressedExtError
  {
    assert EmptySuppressedExtError[9] == 'E';
    assert LeadingDotSuppressedExtError[9] == 'F';
  }

  /** What one token of the "Don't warn about" setting appends to the error list. */
  lemma AddSuppressedErrors(tok: string, s: Suppression)
    ensures var r := AddSuppressed(tok, s);
      && |s.errors| <= |r.errors|
      && r.errors[..|s.errors|] == s.errors
      && multiset(r.errors[|s.errors|..])[EmptySuppressedExtError] == (if IsEmptyToken(tok) then 1 else 0)
      && multiset(r.errors[|s.errors|..])[LeadingDotSuppressedExtError] == (if IsDottedToken(tok) then 1 else 0)
      && |r.errors| == |s.errors| + (if IsEmptyToken(tok) then 1 else 0) + (if IsDottedToken(tok) then 1 else 0)
  {
    SuppressionErrorsDistinct();
    var r := AddSuppressed(tok, s);
    if IsEmptyToken(tok) {
      assert r.errors[|s.errors|..] == [EmptySuppressedExtError];
    } else if IsDottedToken(tok) {
      assert r.errors[|s.errors|..] == [LeadingDotSuppressedExtError];
    } else {
      assert r.errors[|s.errors|..] == [];
    }
  }

  /** The "Don't warn about" set holds exactly the normalised non-empty tokens. */
  lemma {:induction false} SuppressionExts(toks: seq<string>, s: Suppression)
    ensures AddSuppressedAll(toks, s).exts == s.exts + TokenExts(toks)
    decreases |toks|
  {
    if toks == [] {
      assert TokenExts(toks) == {};
    } else {
      var front, last := toks[..|toks| - 1], toks[|toks| - 1];
      assert toks == front + [last];
      SuppressionExts(front, s);
      TokenExtsSnoc(front, last);
    }
  }

  /**
   The diagnostics of the "Don't warn about" setting go to the error list,
   after what was there: one per empty token and one per dotted token.
   */
  lemma {:induction false} SuppressionErrors(toks: seq<string>, s: Suppression)
    ensures var r := AddSuppressedAll(toks, s);
      && |r.errors| == |s.errors| + EmptyTokenCount(toks) + DottedTokenCount(toks)
      && r.errors[..|s.errors|] == s.errors
      && multiset(r.errors[|s.errors|..])[EmptySuppressedExtError] == EmptyTokenCount(toks)
      && multiset(r.errors[|s.errors|..])[LeadingDotSuppressedExtError] == DottedTokenCount(toks)
    decreases |toks|
  {
    if toks != [] {
      var front, last := toks[..|toks| - 1], toks[|toks| - 1];
      SuppressionErrors(front, s);
      var b := AddSuppressedAll(front, s);
      var r := AddSuppressed(last, b);
      AddSuppressedErrors(last, b);
      var extra := r.errors[|b.errors|..];
      assert r == AddSuppressedAll(toks, s);
      assert r.errors == b.errors + extra;
      assert r.errors[|s.errors|..] == b.errors[|s.errors|..] + extra by {
        assert |s.errors| <= |b.errors|;
      }
      assert r.errors[..|s.errors|] == b.errors[..|s.errors|] by {
        assert |s.errors| <= |b.errors|;
      }
    }
  }

  /**
   The maps `init_mime_types` leaves: the bundled defaults, text, binary and
   custom sources merged in that order, minus every disallowed key; the
   disallowed map gets the disallowed list with the "false" marker; the two
   are disjoint; and the suppression set is the normalised "Don't warn
   about" list.
   */
  lemma InitMimeTypesMaps(fileinfoLoaded: bool, defaultLines: seq<string>, settings: Settings, s: PluginState)
    ensures var r := InitMimeTypes(fileinfoLoaded, defaultLines, settings, s);
      && r.disallowedMimeTypes == s.disallowedMimeTypes + ConstMap(ExtSet(settings.disallowedFileExtensions), DisallowedMarker)
      && r.mimeTypes ==
           (s.mimeTypes
             + ListingMap(defaultLines)
             + ConstMap(ExtSet(settings.textFileExtensions), TextFileMimeType)
             + ConstMap(ExtSet(settings.binaryFileExtensions), BinaryFileMimeType)
             + ListingMap(Explode('\n', settings.customMimeTypes)))
           - r.disallowedMimeTypes.Keys
      && r.mimeTypes.Keys !! r.disallowedMimeTypes.Keys
      && r.overwritableFileExts == ExtSet(settings.allowedFileExtOverwriting)
  {
    var warns := if fileinfoLoaded then s.warnList + [FileinfoWarning] else s.warnList;
    var sup := AddSuppressedAll(Tokens(settings.allowedFileExtOverwriting), Suppression({}, s.errorList));
    SuppressionExts(Tokens(settings.allowedFileExtOverwriting), Suppression({}, s.errorList));
    var ow := sup.exts;
    var a0 := Merged(s.mimeTypes, warns, sup.errors);
    var defaults := Listing(defaultLines, ow, a0);
    ListingEffect(defaultLines, ow, a0);
    var text := FileExtList(settings.textFileExtensions, TextFileMimeType, ow, defaults);
    FileExtListEffect(settings.textFileExtensions, TextFileMimeType, ow, defaults);
    var binary := FileExtList(settings.binaryFileExtensions, BinaryFileMimeType, ow, text);
    FileExtListEffect(settings.binaryFileExtensions, BinaryFileMimeType, ow, text);
    var lines := Explode('\n', settings.customMimeTypes);
    var custom := Listing(lines, ow, binary);
    ListingEffect(lines, ow, binary);
    var d0 := Merged(s.disallowedMimeTypes, custom.warns, custom.errors);
    FileExtListEffect(settings.disallowedFileExtensions, DisallowedMarker, {}, d0);
  }

  /**
   The error list after `init_mime_types`: the errors already there stay
   in front, and it grows by one entry per malformed suppression token and
   per malformed listing line, and by nothing else.
   */
  lemma InitMimeTypesErrors(fileinfoLoaded: bool, defaultLines: seq<string>, settings: Settings, s: PluginState)
    ensures var r := InitMimeTypes(fileinfoLoaded, defaultLines, settings, s);
      && |r.errorList| == |s.errorList|
           + EmptyTokenCount(Tokens(settings.allowedFileExtOverwriting))
           + DottedTokenCount(Tokens(settings.allowedFileExtOverwriting))
           + MalformedLineCount(defaultLines)
           + MalformedLineCount(Explode('\n', settings.customMimeTypes))
      && r.errorList[..|s.errorList|] == s.errorList
  {
    var warns := if fileinfoLoaded then s.warnList + [FileinfoWarning] else s.warnList;
    var sup := AddSuppressedAll(Tokens(settings.allowedFileExtOverwriting), Suppression({}, s.errorList));
    SuppressionErrors(Tokens(settings.allowedFileExtOverwriting), Suppression({}, s.errorList));
    var ow := sup.exts;
    var a0 := Merged(s.mimeTypes, warns, sup.errors);
    var defaults := Listing(defaultLines, ow, a0);
    ListingEffect(defaultLines, ow, a0);
    var text := FileExtList(settings.textFileExtensions, TextFileMimeType, ow, defaults);
    var binary := FileExtList(settings.binaryFileExtensions, BinaryFileMimeType, ow, text);
    var lines := Explode('\n', settings.customMimeTypes);
    var custom := Listing(lines, ow, binary);
    ListingEffect(lines, ow, binary);
    assert custom.errors[..|s.errorList|] == s.errorList by {
      assert custom.errors[..|sup.errors|] == sup.errors;
      assert binary.errors == defaults.errors;
      assert defaults.errors[..|sup.errors|] == sup.errors;
      assert sup.errors[..|s.errorList|] == s.errorList;
    }
  }

  /** With disallowed list "php", no source can leave "php" in the map. */
  lemma InitDisallowsPhp(fileinfoLoaded: bool, defaultLines: seq<string>, settings: Settings, s: PluginState)
    requires settings.disallowedFileExtensions == "php"
    ensures "php" !in InitMimeTypes(fileinfoLoaded, defaultLines, settings, s).mimeTypes
  {
    TrimNoop("php");
    ExplodeNoSeparator(',', "php");
    assert Tokens("php") == ["php"];
    assert "php" in ExtSet("php") by { assert NormalizedToken(Tokens("php")[0]) == "php"; }
    InitMimeTypesMaps(fileinfoLoaded, defaultLines, settings, s);
  }

  // ------------------------------------------ which list a diagnostic joins

  /**
   The kinds of diagnostic are told apart by their first letter: the
   fileinfo notice starts with 'T', the `parse_file_ext_list` warnings with
   'E', 'F' or 'O', and the errors with 'W', 'I' or 'N'.
   */
  lemma FileExtListWarningInitial(w: string)
    requires IsFileExtListWarning(w)
    ensures |w| > 0 && (w[0] == 'E' || w[0] == 'F' || w[0] == 'O')
  {
    if exists list :: w == EmptyExtWarning(list) {
      var list :| w == EmptyExtWarning(list);
      assert w[0] == 'E';
    } else if exists list :: w == LeadingDotWarning(list) {
      var list :| w == LeadingDotWarning(list);
      assert w[0] == 'F';
    } else {
      assert w[..|OverwritePrefix|] == OverwritePrefix;
      assert w[0] == w[..|OverwritePrefix|][0];
    }
  }

  lemma WarningInitial(w: string)
    requires IsWarningMessage(w)
    ensures |w| > 0 && (w[0] == 'T' || w[0] == 'E' || w[0] == 'F' || w[0] == 'O')
  {
    if w == FileinfoWarning {
      assert w[0] == 'T';
    } else {
      FileExtListWarningInitial(w);
    }
  }

  lemma ErrorInitial(e: string)
    requires IsErrorMessage(e)
    ensures |e| > 0 && (e[0] == 'W' || e[0] == 'I' || e[0] == 'N')
  {
    if e == EmptySuppressedExtError || e == LeadingDotSuppressedExtError {
      assert e[0] == 'W';
    } else if exists line :: e == InvalidLineError(line) {
      var line :| e == InvalidLineError(line);
      assert e[0] == 'I';
    } else {
      var line :| e == NoMimeTypeError(line);
      assert e[0] == 'N';
    }
  }

  /** No diagnostic is both a warning and an error. */
  lemma MessagesDisjoint(m: string)
    ensures !(IsWarningMessage(m) && IsErrorMessage(m))
  {
    if IsWarningMessage(m) && IsErrorMessage(m) {
      WarningInitial(m);
      ErrorInitial(m);
    }
  }

  /** `parse_file_ext_list` appends only its own kinds of warning, and no error. */
  lemma FileExtListMessages(list: string, mime: string, ow: set<string>, a: Merged)
    ensures var r := FileExtList(list, mime, ow, a);
      && |a.warns| <= |r.warns| && r.warns[..|a.warns|] == a.warns
      && (forall w :: w in r.warns[|a.warns|..] ==> IsFileExtListWarning(w))
      && r.errors == a.errors
  {
    var r := FileExtList(list, mime, ow, a);
    AddExtsWarnings(Trim(list), mime, ow, Tokens(list), a);
    forall w | w in r.warns[|a.warns|..]
      ensures IsFileExtListWarning(w)
    {
      if w == EmptyExtWarning(Trim(list)) {
      } else if w == LeadingDotWarning(Trim(list)) {
      }
    }
  }

  /** One listing line appends only `parse_file_ext_list` warnings and line errors. */
  lemma ListingLineMessages(line: string, ow: set<string>, a: Merged)
    ensures var r := ListingLine(line, ow, a);
      && |a.warns| <= |r.warns| && r.warns[..|a.warns|] == a.warns
      && (forall w :: w in r.warns[|a.warns|..] ==> IsFileExtListWarning(w))
      && |a.errors| <= |r.errors| && r.errors[..|a.errors|] == a.errors
      && (forall e :: e in r.errors[|a.errors|..] ==> IsLineError(e))
  {
    var r := ListingLine(line, ow, a);
    match ClassifyLine(line)
    case Entry(exts, mime) =>
      FileExtListMessages(exts, mime, ow, a);
      assert r.errors[|a.errors|..] == [];
    case Skipped =>
      assert r.warns[|a.warns|..] == [] && r.errors[|a.errors|..] == [];
    case Invalid =>
      assert r.warns[|a.warns|..] == [];
      assert r.errors[|a.errors|..] == [InvalidLineError(Trim(line))];
    case NoMimeType =>
      assert r.warns[|a.warns|..] == [];
      assert r.errors[|a.errors|..] == [NoMimeTypeError(Trim(line))];
  }

  /** Extending a list whose tail holds only warnings by more warnings. */
  lemma WarningsChain(o: seq<string>, p: seq<string>, q: seq<string>)
    requires |o| <= |p| && p[..|o|] == o && (forall w :: w in p[|o|..] ==> IsFileExtListWarning(w))
    requires |p| <= |q| && q[..|p|] == p && (forall w :: w in q[|p|..] ==> IsFileExtListWarning(w))
    ensures |o| <= |q| && q[..|o|] == o && (forall w :: w in q[|o|..] ==> IsFileExtListWarning(w))
  {
    assert q[|o|..] == p[|o|..] + q[|p|..];
    assert q[..|o|] == q[..|p|][..|o|];
  }

  /** The same for errors. */
  lemma ErrorsChain(o: seq<string>, p: seq<string>, q: seq<string>)
    requires |o| <= |p| && p[..|o|] == o && (forall e :: e in p[|o|..] ==> IsErrorMessage(e))
    requires |p| <= |q| && q[..|p|] == p && (forall e :: e in q[|p|..] ==> IsErrorMessage(e))
    ensures |o| <= |q| && q[..|o|] == o && (forall e :: e in q[|o|..] ==> IsErrorMessage(e))
  {
    assert q[|o|..] == p[|o|..] + q[|p|..];
    assert q[..|o|] == q[..|p|][..|o|];
  }

  /** A whole listing appends only `parse_file_ext_list` warnings and line errors. */
  lemma {:induction false} ListingMessages(lines: seq<string>, ow: set<string>, a: Merged)
    ensures var r := Listing(lines, ow, a);
      && |a.warns| <= |r.warns| && r.warns[..|a.warns|] == a.warns
      && (forall w :: w in r.warns[|a.warns|..] ==> IsFileExtListWarning(w))
      && |a.errors| <= |r.errors| && r.errors[..|a.errors|] == a.errors
      && (forall e :: e in r.errors[|a.errors|..] ==> IsErrorMessage(e))
    decreases |lines|
  {
    if lines == [] {
      assert a.warns[|a.warns|..] == [] && a.errors[|a.errors|..] == [];
    } else {
      var front := lines[..|lines| - 1];
      ListingMessages(front, ow, a);
      var b := Listing(front, ow, a);
      ListingLineMessages(lines[|lines| - 1], ow, b);
      var r := Listing(lines, ow, a);
      WarningsChain(a.warns, b.warns, r.warns);
      ErrorsChain(a.errors, b.errors, r.errors);
    }
  }

  /** The error one "Don't warn about" token appends, if any. */
  lemma AddSuppressedStep(tok: string, s: Suppression)
    ensures AddSuppressed(tok, s).errors == s.errors
      + (if IsEmptyToken(tok) then [EmptySuppressedExtError]
         else if IsDottedToken(tok) then [LeadingDotSuppressedExtError] else [])
  {
  }

  /** The "Don't warn about" loop appends only its two error strings. */
  lemma {:induction false} SuppressionMessages(toks: seq<string>, s: Suppression)
    ensures var r := AddSuppressedAll(toks, s);
      && |s.errors| <= |r.errors| && r.errors[..|s.errors|] == s.errors
      && (forall e :: e in r.errors[|s.errors|..] ==> e == EmptySuppressedExtError || e == LeadingDotSuppressedExtError)
    decreases |toks|
  {
    if toks == [] {
      assert s.errors[|s.errors|..] == [];
    } else {
      var front, last := toks[..|toks| - 1], toks[|toks| - 1];
      SuppressionMessages(front, s);
      var b := AddSuppressedAll(front, s);
      var r := AddSuppressed(last, b);
      assert r == AddSuppressedAll(toks, s);
      var extra := r.errors[|b.errors|..];
      assert r.errors == b.errors + extra && forall e :: e in extra ==> e == EmptySuppressedExtError || e == LeadingDotSuppressedExtError by {
        AddSuppressedStep(last, b);
      }
      assert r.errors[|s.errors|..] == b.errors[|s.errors|..] + extra;
      assert r.errors[..|s.errors|] == b.errors[..|s.errors|];
    }
  }

  /**
   The warning list after `init_mime_types`: what was there stays in front;
   the fileinfo notice comes next exactly when the extension is loaded;
   everything after it is a `parse_file_ext_list` warning.
   */
  lemma InitMimeTypesWarnings(fileinfoLoaded: bool, defaultLines: seq<string>, settings: Settings, s: PluginState)
    ensures var r := InitMimeTypes(fileinfoLoaded, defaultLines, settings, s);
      var n := |s.warnList| + (if fileinfoLoaded then 1 else 0);
      && n <= |r.warnList|
      && r.warnList[..|s.warnList|] == s.warnList
      && (fileinfoLoaded ==> r.warnList[|s.warnList|] == FileinfoWarning)
      && (forall w :: w in r.warnList[n..] ==> IsFileExtListWarning(w))
      && (!fileinfoLoaded ==> FileinfoWarning !in r.warnList[|s.warnList|..])
  {
    var warns := if fileinfoLoaded then s.warnList + [FileinfoWarning] else s.warnList;
    var sup := AddSuppressedAll(Tokens(settings.allowedFileExtOverwriting), Suppression({}, s.errorList));
    var ow := sup.exts;
    var a0 := Merged(s.mimeTypes, warns, sup.errors);
    var defaults := Listing(defaultLines, ow, a0);
    ListingMessages(defaultLines, ow, a0);
    var text := FileExtList(settings.textFileExtensions, TextFileMimeType, ow, defaults);
    FileExtListMessages(settings.textFileExtensions, TextFileMimeType, ow, defaults);
    WarningsChain(warns, defaults.warns, text.warns);
    var binary := FileExtList(settings.binaryFileExtensions, BinaryFileMimeType, ow, text);
    FileExtListMessages(settings.binaryFileExtensions, BinaryFileMimeType, ow, text);
    WarningsChain(warns, text.warns, binary.warns);
    var lines := Explode('\n', settings.customMimeTypes);
    var custom := Listing(lines, ow, binary);
    ListingMessages(lines, ow, binary);
    WarningsChain(warns, binary.warns, custom.warns);
    var d0 := Merged(s.disallowedMimeTypes, custom.warns, custom.errors);
    var r := FileExtList(settings.disallowedFileExtensions, DisallowedMarker, {}, d0);
    FileExtListMessages(settings.disallowedFileExtensions, DisallowedMarker, {}, d0);
    WarningsChain(warns, custom.warns, r.warns);
    assert r.warns[..|s.warnList|] == r.warns[..|warns|][..|s.warnList|];
    if fileinfoLoaded {
      assert r.warns[|s.warnList|] == r.warns[..|warns|][|s.warnList|];
    } else if FileinfoWarning in r.warns[|s.warnList|..] {
      assert FileinfoWarning[0] == 'T';
      FileExtListWarningInitial(FileinfoWarning);
    }
  }

  /**
   The error list after `init_mime_types`: what was there stays in front,
   and everything appended is a "Don't warn about" diagnostic or a listing
   line error.
   */
  lemma InitMimeTypesErrorKinds(fileinfoLoaded: bool, defaultLines: seq<string>, settings: Settings, s: PluginState)
    ensures var r := InitMimeTypes(fileinfoLoaded, defaultLines, settings, s);
      && |s.errorList| <= |r.errorList| && r.errorList[..|s.errorList|] == s.errorList
      && (forall e :: e in r.errorList[|s.errorList|..] ==> IsErrorMessage(e))
  {
    var warns := if fileinfoLoaded then s.warnList + [FileinfoWarning] else s.warnList;
    var sup := AddSuppressedAll(Tokens(settings.allowedFileExtOverwriting), Suppression({}, s.errorList));
    SuppressionMessages(Tokens(settings.allowedFileExtOverwriting), Suppression({}, s.errorList));
    var ow := sup.exts;
    var a0 := Merged(s.mimeTypes, warns, sup.errors);
    var defaults := Listing(defaultLines, ow, a0);
    ListingMessages(defaultLines, ow, a0);
    ErrorsChain(s.errorList, sup.errors, defaults.errors);
    var text := FileExtList(settings.textFileExtensions, TextFileMimeType, ow, defaults);
    FileExtListMessages(settings.textFileExtensions, TextFileMimeType, ow, defaults);
    var binary := FileExtList(settings.binaryFileExtensions, BinaryFileMimeType, ow, text);
    FileExtListMessages(settings.binaryFileExtensions, BinaryFileMimeType, ow, text);
    var lines := Explode('\n', settings.customMimeTypes);
    var custom := Listing(lines, ow, binary);
    ListingMessages(lines, ow, binary);
    ErrorsChain(s.errorList, binary.errors, custom.errors);
    var d0 := Merged(s.disallowedMimeTypes, custom.warns, custom.errors);
    FileExtListMessages(settings.disallowedFileExtensions, DisallowedMarker, {}, d0);
  }

  /**
   `init_mime_types` keeps the two lists apart: nothing it appends to the
   error list is a warning, and nothing it appends to the warning list is
   an error.
   */
  lemma InitMimeTypesListsApart(fileinfoLoaded: bool, defaultLines: seq<string>, settings: Settings, s: PluginState)
    ensures var r := InitMimeTypes(fileinfoLoaded, defaultLines, settings, s);
      && |s.errorList| <= |r.errorList| && |s.warnList| <= |r.warnList|
      && (forall e :: e in r.errorList[|s.errorList|..] ==> !IsWarningMessage(e))
      && (forall w :: w in r.warnList[|s.warnList|..] ==> !IsErrorMessage(w))
  {
    var r := InitMimeTypes(fileinfoLoaded, defaultLines, settings, s);
    InitMimeTypesErrorKinds(fileinfoLoaded, defaultLines, settings, s);
    InitMimeTypesWarnings(fileinfoLoaded, defaultLines, settings, s);
    forall e | e in r.errorList[|s.errorList|..]
      ensures !IsWarningMessage(e)
    {
      MessagesDisjoint(e);
    }
    var n := |s.warnList| + (if fileinfoLoaded then 1 else 0);
    assert r.warnList[|s.warnList|..] == r.warnList[|s.warnList|..n] + r.warnList[n..];
    forall w | w in r.warnList[|s.warnList|..]
      ensures !IsErrorMessage(w)
    {
      if w !in r.warnList[n..] {
        assert w == FileinfoWarning;
      }
      MessagesDisjoint(w);
    }
  }

  // ---------------------------------------------------- _extend_mime_types

  /**
   What the `upload_mimes` filter returns: no disallowed extension; for
   every other extension of the plugin, the host's type when the plugin
   only offers a generic type and the host has a type already, and the
   plugin's type otherwise; every other host entry unchanged; and no key
   that neither side had.
   */
  lemma ExtendedMimeTypesEffect(host: map<string, string>, plugin: map<string, string>, disallowed: map<string, string>)
    ensures var r := ExtendedMimeTypes(host, plugin, disallowed);
      && (forall k :: k in disallowed ==> k !in r)
      && (forall k :: k in plugin && k !in disallowed && KeepsHostType(host, k, plugin[k]) ==>
            k in r && r[k] == host[k])
      && (forall k :: k in plugin && k !in disallowed && !KeepsHostType(host, k, plugin[k]) ==>
            k in r && r[k] == plugin[k])
      && (forall k :: k in host && k !in plugin && k !in disallowed ==> k in r && r[k] == host[k])
      && (forall k :: k in r ==> k in host || k in plugin)
  {
  }
}
