/** Argument handling shared by the listeners: quote stripping, cleaning of add-target and
    source arguments, the link-argument filter and scope state machine, and file sorting. */
module Args {
  import opened Seqs
  import opened Paths

  /** A parsed statement as the listeners see it: the raw text of each argument, how many
      arguments are bracketed (compound), the build file it comes from, and the token indices
      of its first and last token. */
  datatype Statement = Statement(args: seq<string>, compoundCount: nat, fileName: string, start: nat, stop: nat)

  /** The modify commands the grammar distinguishes; the listeners compare the lower-cased name. */
  datatype ModifyCommand = TargetLinkLibraries | TargetSources | OtherCommand

  /** `get_args`: every `"` is removed from each argument, wherever it stands. */
  function GetArgs(raw: seq<string>): (args: seq<string>)
    ensures |args| == |raw|
    ensures forall i :: 0 <= i < |args| ==> '"' !in args[i]
    ensures forall i :: 0 <= i < |args| ==> ('"' !in raw[i] ==> args[i] == raw[i])
    ensures forall i, c {:trigger multiset(args[i])[c]} :: 0 <= i < |args| ==>
      multiset(args[i])[c] == if c == '"' then 0 else multiset(raw[i])[c]
  {
    var r := seq(|raw|, i requires 0 <= i < |raw| => Filter(raw[i], c => c != '"'));
    forall i | 0 <= i < |raw|
      ensures forall c :: multiset(r[i])[c] == if c == '"' then 0 else multiset(raw[i])[c]
    {
      FilterCountAll(raw[i], c => c != '"');
    }
    r
  }

  /** Removing the quotes keeps every other character of an argument, in order. */
  lemma GetArgsKeepsOrder(raw: seq<string>)
    ensures forall i :: 0 <= i < |raw| ==> IsSubseq(GetArgs(raw)[i], raw[i])
  {
    forall i | 0 <= i < |raw| ensures IsSubseq(GetArgs(raw)[i], raw[i]) {
      assert GetArgs(raw)[i] == Filter(raw[i], c => c != '"');
    }
  }

  const UnusedKeywords: seq<string> :=
    ["EXCLUDE_FROM_ALL", "WIN32", "MACOSX", "IMPORTED", "GLOBAL", "STATIC", "SHARED", "MODULE"]

  /** Where Python's `$` may match: the end, or just before one final newline. */
  function Chomp(s: string): string {
    if |s| > 0 && s[|s| - 1] == '\n' then s[..|s| - 1] else s
  }

  /** `re.match(r"^\$<.*>$", s)`; `.` never matches a newline. */
  predicate IsGenexpr(s: string) {
    var t := Chomp(s);
    |t| >= 3 && t[0] == '$' && t[1] == '<' && t[|t| - 1] == '>' && '\n' !in t
  }

  /** `re.match(r"^\$\{.*\}$", s)`: the whole argument is one variable reference. */
  predicate IsVariable(s: string) {
    var t := Chomp(s);
    |t| >= 3 && t[0] == '$' && t[1] == '{' && t[|t| - 1] == '}' && '\n' !in t
  }

  /** `re.match(r".+\$\{.*\}$", s)`: a name whose tail is a variable reference. */
  predicate EndsInVariable(s: string) {
    var t := Chomp(s);
    |t| >= 4 && t[|t| - 1] == '}' && '\n' !in t
    && exists i :: 1 <= i <= |t| - 3 && t[i] == '$' && t[i + 1] == '{'
  }

  /** `re.match(r"^\$\{.*\}.+", s)`: a variable reference followed by more text. */
  predicate StartsWithVariable(s: string) {
    |s| >= 4 && s[0] == '$' && s[1] == '{'
    && exists j :: 2 <= j < |s| - 1 && s[j] == '}' && s[j + 1] != '\n' && '\n' !in s[2..j]
  }

  /** Kept by `clean_target_args`. */
  predicate KeptTargetArg(a: string) {
    a !in UnusedKeywords && !IsGenexpr(a) && !IsVariable(a)
  }

  /** `clean_target_args`: drops the no-op keywords and every argument that is entirely a
      generator expression or entirely a variable reference, keeping the rest in order. */
  function CleanTargetArgs(args: seq<string>): (r: seq<string>)
    ensures IsSubseq(r, args)
    ensures forall a :: a in r <==> a in args && KeptTargetArg(a)
    ensures forall i :: 0 <= i < |r| ==> r[i] !in UnusedKeywords && !IsVariable(r[i]) && !IsGenexpr(r[i])
    ensures forall a {:trigger multiset(r)[a]} :: multiset(r)[a] == if KeptTargetArg(a) then multiset(args)[a] else 0
  {
    FilterCountAll(args, KeptTargetArg);
    Filter(args, KeptTargetArg)
  }

  /** The example of the listener unit test: a bare variable and a generator expression go,
      a path with a literal tail after the variable stays. */
  lemma CleanTargetArgsExample()
    ensures CleanTargetArgs(["${var}", "${CMAKE_CURRENT_LIST_DIR}/file.h", "$<if:$<nested genexpr>>"])
         == ["${CMAKE_CURRENT_LIST_DIR}/file.h"]
  {
    var a, b, c := "${var}", "${CMAKE_CURRENT_LIST_DIR}/file.h", "$<if:$<nested genexpr>>";
    assert IsVariable(a) && IsGenexpr(c);
    assert !IsVariable(b) && !IsGenexpr(b) && b !in UnusedKeywords;
    assert [a, b, c][1..] == [b, c] && [b, c][1..] == [c] && [c][1..] == [];
  }

  /** What the regex of `clean_target_args` matches: a whole variable reference or generator
      expression, up to one final newline, and nothing with text around it. */
  lemma TargetArgPatternExamples()
    ensures IsVariable("${x}") && IsVariable("${x}\n") && !IsVariable("${x}/a.cpp")
    ensures IsGenexpr("$<CONFIG>") && !IsGenexpr("$<a>\n\n")
    ensures !KeptTargetArg("STATIC") && KeptTargetArg("a.cpp")
  {
    assert Chomp("${x}\n") == "${x}";
    assert Chomp("$<a>\n\n") == "$<a>\n";
    assert "STATIC" in UnusedKeywords;
    assert "a.cpp" !in UnusedKeywords;
  }

  /** Dropped by the regex at the start of `handle_link_args`. */
  predicate IsInvalidLinkItem(a: string) {
    IsGenexpr(a) || EndsInVariable(a) || StartsWithVariable(a)
  }

  /** The arguments `handle_link_args` keeps. */
  function LinkItems(args: seq<string>): (r: seq<string>)
    ensures IsSubseq(r, args)
    ensures forall a :: a in r <==> a in args && !IsInvalidLinkItem(a)
    ensures forall a {:trigger multiset(r)[a]} :: multiset(r)[a] == if IsInvalidLinkItem(a) then 0 else multiset(args)[a]
  {
    FilterCountAll(args, a => !IsInvalidLinkItem(a));
    Filter(args, a => !IsInvalidLinkItem(a))
  }

  /** A bare `${var}` is a valid link item (it may name one target); text glued to a
      variable is not. */
  lemma LinkItemVariables(v: string, prefix: string)
    requires '\n' !in v && '}' !in v && '$' !in v && prefix != "" && '\n' !in prefix
    ensures !IsInvalidLinkItem("${" + v + "}")
    ensures IsInvalidLinkItem(prefix + "${" + v + "}")
    ensures IsInvalidLinkItem("${" + v + "}" + prefix)
  {
    BareVariableValid(v);
    PrefixedVariableInvalid(v, prefix);
    SuffixedVariableInvalid(v, prefix);
  }

  lemma BareVariableValid(v: string)
    requires '\n' !in v && '}' !in v && '$' !in v
    ensures !IsInvalidLinkItem("${" + v + "}")
  {
    var bare := "${" + v + "}";
    assert Chomp(bare) == bare;
    assert !EndsInVariable(bare) by {
      forall i | 1 <= i <= |bare| - 3 ensures !(bare[i] == '$' && bare[i + 1] == '{') {
        if i >= 2 { assert bare[i] == v[i - 2]; }
      }
    }
    assert !StartsWithVariable(bare) by {
      forall j | 2 <= j < |bare| - 1 ensures bare[j] != '}' {
        assert bare[j] == v[j - 2];
      }
    }
  }

  lemma PrefixedVariableInvalid(v: string, prefix: string)
    requires '\n' !in v && prefix != "" && '\n' !in prefix
    ensures IsInvalidLinkItem(prefix + "${" + v + "}")
  {
    var bare := "${" + v + "}";
    assert '\n' !in bare;
    var glued := prefix + bare;
    assert glued[|glued| - 1] == '}';
    assert Chomp(glued) == glued;
    assert glued[|prefix|] == '$' && glued[|prefix| + 1] == '{';
    assert '\n' !in glued by {
      forall k | 0 <= k < |glued| ensures glued[k] != '\n' {
        if k < |prefix| { assert glued[k] == prefix[k]; } else { assert glued[k] == bare[k - |prefix|]; }
      }
    }
    assert 1 <= |prefix| <= |glued| - 3;
    assert EndsInVariable(glued);
    assert glued == prefix + "${" + v + "}";
  }

  lemma SuffixedVariableInvalid(v: string, prefix: string)
    requires '\n' !in v && '}' !in v && prefix != "" && '\n' !in prefix
    ensures IsInvalidLinkItem("${" + v + "}" + prefix)
  {
    var bare := "${" + v + "}";
    var tail := bare + prefix;
    var j := |bare| - 1;
    assert tail[j] == '}' && tail[j + 1] == prefix[0];
    assert tail[2..j] == v;
    assert StartsWithVariable(tail);
  }

  /** The three link scopes of `target_link_libraries`. */
  datatype Scope = Public | Private | Interface

  predicate IsScopeKeyword(a: string) {
    a == "PUBLIC" || a == "PRIVATE" || a == "INTERFACE"
  }

  function ScopeOf(keyword: string): Scope
    requires IsScopeKeyword(keyword)
  {
    if keyword == "PUBLIC" then Public else if keyword == "PRIVATE" then Private else Interface
  }

  /** The scope in force after reading `items`: the last keyword among them, else `public`. */
  function ScopeAfter(items: seq<string>): (r: Scope)
    ensures (forall i :: 0 <= i < |items| ==> !IsScopeKeyword(items[i])) ==> r == Public
    ensures r == Private ==> "PRIVATE" in items
    ensures r == Interface ==> "INTERFACE" in items
  {
    if items == [] then Public
    else if IsScopeKeyword(items[|items| - 1]) then ScopeOf(items[|items| - 1])
    else ScopeAfter(items[..|items| - 1])
  }

  /** The non-keyword items that fall under scope `sc`, in order. */
  function Selected(items: seq<string>, sc: Scope): (r: seq<string>)
    ensures |r| <= |items|
    ensures (forall i :: 0 <= i < |items| ==> !IsScopeKeyword(items[i])) ==> r == if sc == Public then items else []
  {
    if items == [] then []
    else
      var last := items[|items| - 1];
      var front := items[..|items| - 1];
      assert items == front + [last];
      Selected(front, sc)
        + (if !IsScopeKeyword(last) && ScopeAfter(front) == sc then [last] else [])
  }

  /** A scope list holds only items given, and never a keyword. */
  lemma {:induction false} SelectedMembers(items: seq<string>, sc: Scope)
    ensures forall x :: x in Selected(items, sc) ==> x in items && !IsScopeKeyword(x)
  {
    if items != [] {
      var front := items[..|items| - 1];
      SelectedMembers(front, sc);
      assert items == front + [items[|items| - 1]];
    }
  }

  /** Items that are not scope keywords. */
  predicate IsPlainItem(a: string) {
    !IsScopeKeyword(a)
  }

  function NonKeywords(items: seq<string>): seq<string> {
    Filter(items, IsPlainItem)
  }

  /** Each non-keyword item lands in exactly one scope list, as often as it occurs. */
  lemma {:induction false} SelectedPartition(items: seq<string>)
    ensures multiset(Selected(items, Public)) + multiset(Selected(items, Private))
            + multiset(Selected(items, Interface)) == multiset(NonKeywords(items))
  {
    if items != [] {
      var last := items[|items| - 1];
      var front := items[..|items| - 1];
      FrontLast(items);
      SelectedPartition(front);
      FilterAppend(front, [last], IsPlainItem);
      var add := if IsScopeKeyword(last) then [] else [last];
      assert Filter([last], IsPlainItem) == add;
      assert NonKeywords(items) == NonKeywords(front) + add;
      SelectedLast(items, Public);
      SelectedLast(items, Private);
      SelectedLast(items, Interface);
      OneScopeGains(multiset(Selected(front, Public)), multiset(Selected(front, Private)),
                    multiset(Selected(front, Interface)), multiset(NonKeywords(front)), multiset(add),
                    multiset(Selected(items, Public)), multiset(Selected(items, Private)),
                    multiset(Selected(items, Interface)), multiset(NonKeywords(items)));
    }
  }

  /** Three counts that add up to a total still do once one of them gains what the total gains. */
  lemma OneScopeGains(a: multiset<string>, b: multiset<string>, c: multiset<string>, n: multiset<string>,
                      m: multiset<string>,
                      a': multiset<string>, b': multiset<string>, c': multiset<string>, n': multiset<string>)
    requires a + b + c == n && n' == n + m
    requires || (a' == a + m && b' == b && c' == c)
             || (a' == a && b' == b + m && c' == c)
             || (a' == a && b' == b && c' == c + m)
    ensures a' + b' + c' == n'
  {
  }

  lemma SelectedLast(items: seq<string>, sc: Scope)
    requires items != []
    ensures var last := items[|items| - 1];
      var front := items[..|items| - 1];
      var add := if IsScopeKeyword(last) then [] else [last];
      multiset(Selected(items, sc))
        == multiset(Selected(front, sc)) + (if ScopeAfter(front) == sc then multiset(add) else multiset{})
  {
  }

  /** One step of `Selected` and `ScopeAfter`: the last item joins the scope in force before it
      unless it is a keyword, which switches the scope. */
  lemma SelectedStep(items: seq<string>, sc: Scope)
    requires items != []
    ensures var last := items[|items| - 1];
      var front := items[..|items| - 1];
      && Selected(items, sc)
         == Selected(front, sc) + (if !IsScopeKeyword(last) && ScopeAfter(front) == sc then [last] else [])
      && ScopeAfter(items) == if IsScopeKeyword(last) then ScopeOf(last) else ScopeAfter(front)
  {
  }

  /** Items after which no keyword follows all go to the scope in force before them. */
  lemma {:induction false} SelectedAppendPlain(prefix: seq<string>, plain: seq<string>, sc: Scope)
    requires forall x :: x in plain ==> !IsScopeKeyword(x)
    ensures ScopeAfter(prefix + plain) == ScopeAfter(prefix)
    ensures Selected(prefix + plain, sc) == Selected(prefix, sc) + (if ScopeAfter(prefix) == sc then plain else [])
  {
    if plain != [] {
      var front := plain[..|plain| - 1];
      var last := plain[|plain| - 1];
      var all := prefix + plain;
      assert all[|all| - 1] == last;
      assert all[..|all| - 1] == prefix + front;
      SelectedAppendPlain(prefix, front, sc);
      var tail := if ScopeAfter(prefix) == sc then [last] else [];
      SelectedStep(all, sc);
      assert Selected(all, sc) == Selected(prefix + front, sc) + tail;
      assert ScopeAfter(all) == ScopeAfter(prefix + front);
      var middle := if ScopeAfter(prefix) == sc then front else [];
      AppendAssoc(Selected(prefix, sc), middle, tail);
      FrontLast(plain);
    } else {
      assert prefix + plain == prefix;
    }
  }

  lemma FrontLast<T>(s: seq<T>)
    requires s != []
    ensures s[..|s| - 1] + [s[|s| - 1]] == s
  {
  }

  /** A keyword switches the scope and is itself never selected. */
  lemma SelectedAppendKeyword(prefix: seq<string>, keyword: string, sc: Scope)
    requires IsScopeKeyword(keyword)
    ensures ScopeAfter(prefix + [keyword]) == ScopeOf(keyword)
    ensures Selected(prefix + [keyword], sc) == Selected(prefix, sc)
  {
    assert (prefix + [keyword])[..|prefix|] == prefix;
  }

  predicate IsSourceFile(f: string) {
    Extension(f) in [".c", ".cpp", ".cxx", ".cc", ".c++"]
  }

  predicate IsHeaderFile(f: string) {
    Extension(f) in [".h", ".hpp"]
  }

  /** `sort_files`: the source files and the header files among `files`, each in input order. */
  function SortFiles(files: seq<string>): (r: (seq<string>, seq<string>))
    ensures forall f :: f in r.0 ==> f in files && IsSourceFile(f)
    ensures forall f :: f in r.1 ==> f in files && IsHeaderFile(f)
    ensures |r.0| + |r.1| <= |files|
  {
    forall f ensures !(IsSourceFile(f) && IsHeaderFile(f)) {
      SourceNotHeader(f);
    }
    FilterDisjointLength(files, IsSourceFile, IsHeaderFile);
    (Filter(files, IsSourceFile), Filter(files, IsHeaderFile))
  }

  /** Each group keeps the given order and holds exactly the given files of its kind; no
      file is both a source and a header, and every file of either kind is kept as often as
      it was given. */
  lemma SortFilesPartition(files: seq<string>)
    ensures IsSubseq(SortFiles(files).0, files) && IsSubseq(SortFiles(files).1, files)
    ensures forall f :: f in SortFiles(files).0 <==> f in files && IsSourceFile(f)
    ensures forall f :: f in SortFiles(files).1 <==> f in files && IsHeaderFile(f)
    ensures forall f :: !(f in SortFiles(files).0 && f in SortFiles(files).1)
    ensures forall f :: IsSourceFile(f) ==> multiset(SortFiles(files).0)[f] == multiset(files)[f]
    ensures forall f :: IsHeaderFile(f) ==> multiset(SortFiles(files).1)[f] == multiset(files)[f]
  {
    FilterCountAll(files, IsSourceFile);
    FilterCountAll(files, IsHeaderFile);
    forall f ensures !(IsSourceFile(f) && IsHeaderFile(f)) {
      SourceNotHeader(f);
    }
  }

  lemma SourceNotHeader(f: string)
    ensures !(IsSourceFile(f) && IsHeaderFile(f))
  {
    var e := Extension(f);
    if IsHeaderFile(f) {
      assert e == ".h" || e == ".hpp";
      assert e != ".c" && e != ".cpp" && e != ".cxx" && e != ".cc" && e != ".c++" by {
        assert e[1] == 'h';
      }
    }
  }
}
