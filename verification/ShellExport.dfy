/**
 The startup environment (scripts/load-env.ts): env files are loaded, what is new is printed as `export`
 lines, and scripts/startup.sh evaluates those lines in the calling shell.

 The shell is the quoting and word-splitting part of POSIX.1-2017, Shell Command Language, sections
 2.2.1 (escape character), 2.2.2 (single-quotes) and 2.3 (token recognition), and the `export` utility.
 Every character that could start an expansion, a redirection or an operator is refused.
 */
module ShellExport {
  import opened Sequences

  type Vars = map<string, string>

  // ---------------------------------------------------------------------------------------------
  // Printing
  // ---------------------------------------------------------------------------------------------

  /** `value.replace(/'/g, ...)`: each single quote closes the quoting, stands escaped, and opens it again. */
  function EscapeQuotes(value: string): string {
    if value == "" then ""
    else (if value[0] == '\'' then "'\\''" else [value[0]]) + EscapeQuotes(value[1..])
  }

  function BashQuote(value: string): string { "'" + EscapeQuotes(value) + "'" }

  /** A text without single quotes is just enclosed in them ... */
  lemma {:induction false} QuotePlain(value: string)
    requires '\'' !in value
    ensures BashQuote(value) == "'" + value + "'"
  {
    EscapePlain(value);
  }

  lemma {:induction false} EscapePlain(value: string)
    requires '\'' !in value
    ensures EscapeQuotes(value) == value
  {
    if value != "" {
      EscapePlain(value[1..]);
      assert value == [value[0]] + value[1..];
    }
  }

  lemma {:induction false} EscapeConcat(a: string, b: string)
    ensures EscapeQuotes(a + b) == EscapeQuotes(a) + EscapeQuotes(b)
  {
    if a == "" {
      assert a + b == b;
    } else {
      assert (a + b)[1..] == a[1..] + b;
      EscapeConcat(a[1..], b);
    }
  }

  /** ... and each single quote stands escaped between two such texts. */
  lemma {:induction false} QuoteAroundQuote(a: string, b: string)
    ensures BashQuote(a + "'" + b) == BashQuote(a) + "\\'" + BashQuote(b)
  {
    EscapeConcat(a + "'", b);
    EscapeConcat(a, "'");
    assert EscapeQuotes("'") == "'\\''" + EscapeQuotes("");
    Enclose(EscapeQuotes(a), EscapeQuotes(b));
  }

  lemma Enclose(a: string, b: string)
    ensures "'" + (a + "'\\''" + b) + "'" == ("'" + a + "'") + "\\'" + ("'" + b + "'")
  {
  }

  predicate IsNameStart(c: char) { 'A' <= c <= 'Z' || 'a' <= c <= 'z' || c == '_' }

  predicate IsNameChar(c: char) { IsNameStart(c) || '0' <= c <= '9' }

  /** `/^[A-Za-z_][A-Za-z0-9_]*$/` */
  predicate IsIdentifier(key: string) {
    key != "" && IsNameStart(key[0]) && forall i :: 0 <= i < |key| ==> IsNameChar(key[i])
  }

  /** A name of letters, digits and underscores that does not begin with a digit, by code point. */
  lemma IdentifierExactly(key: string)
    ensures IsIdentifier(key) <==>
              key != "" && !(48 <= key[0] as int <= 57) &&
              forall i :: 0 <= i < |key| ==>
                var n := key[i] as int;
                65 <= n <= 90 || 97 <= n <= 122 || n == 95 || 48 <= n <= 57
  {
    if IsIdentifier(key) {
      forall i | 0 <= i < |key|
        ensures var n := key[i] as int; 65 <= n <= 90 || 97 <= n <= 122 || n == 95 || 48 <= n <= 57
      {
        assert IsNameChar(key[i]);
      }
    }
  }

  function ExportLine(key: string, value: string): string { "export " + key + "=" + BashQuote(value) }

  /** What the emit loop writes for `keys`, each line ended by `console.log`. */
  function Script(keys: seq<string>, env: Vars): string
    requires forall k :: k in keys ==> k in env
  {
    if keys == [] then ""
    else Script(keys[..|keys| - 1], env) +
         if IsIdentifier(keys[|keys| - 1]) then ExportLine(keys[|keys| - 1], env[keys[|keys| - 1]]) + "\n" else ""
  }

  /** One line per identifier, in order; other names are skipped. */
  lemma {:induction false} ScriptInOrder(keys: seq<string>, key: string, env: Vars)
    requires key in env && forall k :: k in keys ==> k in env
    ensures Script([], env) == ""
    ensures Script(keys + [key], env) == Script(keys, env) +
              if IsIdentifier(key) then "export " + key + "=" + BashQuote(env[key]) + "\n" else ""
  {
    assert (keys + [key])[..|keys|] == keys;
  }

  // ---------------------------------------------------------------------------------------------
  // The loader process
  // ---------------------------------------------------------------------------------------------

  datatype Mode = Development | Test | Staging | Production

  /** An env file: unreadable, or the variables it binds. A path that is not on the disk has no file. */
  datatype Source = Broken | Parsed(vars: Vars)

  type Disk = map<string, Source>

  const ENV_FILES: seq<string> := [".env.local", "apps/web/.env.local"]

  function EnvFilesFor(mode: Mode): seq<string> {
    if mode == Production || mode == Staging then [] else ENV_FILES
  }

  /** The first of `files` that binds `key` decides its value. */
  function FirstIn(disk: Disk, files: seq<string>, key: string): Option<string> {
    if files == [] then None
    else if files[0] in disk && disk[files[0]].Parsed? && key in disk[files[0]].vars then Some(disk[files[0]].vars[key])
    else FirstIn(disk, files[1..], key)
  }

  /** The documented contract of `loadEnvFilesSafe`: what is set stays, then the first file that binds a key wins. */
  ghost predicate LoadedFrom(before: Vars, disk: Disk, files: seq<string>, after: Vars) {
    forall key ::
      && (key in after <==> key in before || FirstIn(disk, files, key).Some?)
      && (key in before ==> after[key] == before[key])
      && (key in after && key !in before ==> Some(after[key]) == FirstIn(disk, files, key))
  }

  /** What one more file makes of the environment. */
  function AfterFile(disk: Disk, file: string, env: Vars): Vars {
    if file in disk && disk[file].Parsed? then disk[file].vars + env else env
  }

  lemma LoadOne(before: Vars, disk: Disk, files: seq<string>, env: Vars, file: string)
    requires LoadedFrom(before, disk, files, env)
    ensures LoadedFrom(before, disk, files + [file], AfterFile(disk, file, env))
  {
    FirstInAppend(disk, files, file);
    assert forall key :: FirstIn(disk, [file], key) ==
             if file in disk && disk[file].Parsed? && key in disk[file].vars then Some(disk[file].vars[key])
             else FirstIn(disk, [], key);
  }

  /** There is such a file, it parses, and it binds `key`. */
  predicate Binds(disk: Disk, file: string, key: string) {
    file in disk && disk[file].Parsed? && key in disk[file].vars
  }

  /** In development and in test `.env.local` decides, then `apps/web/.env.local`; otherwise no file does. */
  lemma {:induction false} LocalFiles(disk: Disk)
    ensures forall mode, key :: mode == Development || mode == Test ==>
      FirstIn(disk, EnvFilesFor(mode), key) ==
        if Binds(disk, ".env.local", key) then Some(disk[".env.local"].vars[key])
        else if Binds(disk, "apps/web/.env.local", key) then Some(disk["apps/web/.env.local"].vars[key])
        else None
    ensures forall mode, key :: mode == Production || mode == Staging ==> FirstIn(disk, EnvFilesFor(mode), key) == None
  {
    assert ENV_FILES[0] == ".env.local" && ENV_FILES[1..][0] == "apps/web/.env.local" && ENV_FILES[1..][1..] == [];
    forall key
      ensures FirstIn(disk, ENV_FILES, key) ==
        if Binds(disk, ".env.local", key) then Some(disk[".env.local"].vars[key])
        else if Binds(disk, "apps/web/.env.local", key) then Some(disk["apps/web/.env.local"].vars[key])
        else None
    {
      assert FirstIn(disk, ENV_FILES[1..][1..], key) == None;
    }
  }

  class LoaderProcess {
    var env: Vars
    var stdout: string
    var warnings: seq<string>

    constructor (env0: Vars)
      ensures env == env0 && stdout == ""
    {
      env, stdout, warnings := env0, "", [];
    }

    method LoadEnvFilesSafe(disk: Disk, files: seq<string>)
      modifies this`env, this`warnings
      ensures LoadedFrom(old(env), disk, files, env)
    {
      for i := 0 to |files|
        invariant LoadedFrom(old(env), disk, files[..i], env)
      {
        assert files[..i + 1] == files[..i] + [files[i]];
        LoadOne(old(env), disk, files[..i], env, files[i]);
        if files[i] in disk {
          match disk[files[i]]
          case Broken => warnings := warnings + [files[i]];
          case Parsed(bound) => env := bound + env;
        }
      }
      assert files[..|files|] == files;
    }

    /** `Object.keys(process.env)`: every variable once, in an order nothing is known about. */
    method Keys() returns (keys: seq<string>)
      ensures NoDup(keys) && forall k :: k in keys <==> k in env
    {
      keys := [];
      var left := env.Keys;
      while left != {}
        invariant NoDup(keys)
        invariant forall k :: k in env <==> k in keys || k in left
        invariant forall k :: k in keys ==> k !in left
      {
        var k :| k in left;
        keys := keys + [k];
        left := left - {k};
      }
    }

    /** The emit loop, over the keys that were not there before. */
    method Emit(keys: seq<string>, before: set<string>) returns (ghost loaded: seq<string>)
      requires stdout == "" && NoDup(keys) && forall k :: k in keys ==> k in env
      modifies this`stdout, this`warnings
      ensures NoDup(loaded) && forall k :: k in loaded <==> k in keys && k !in before
      ensures stdout == Script(loaded, env)
    {
      loaded := [];
      for i := 0 to |keys|
        invariant NoDup(loaded) && forall k :: k in loaded <==> k in keys[..i] && k !in before
        invariant stdout == Script(loaded, env)
      {
        var key := keys[i];
        assert keys[..i + 1] == keys[..i] + [key] && key !in keys[..i];
        if key in before { continue; }
        ScriptInOrder(loaded, key, env);
        loaded := loaded + [key];
        if !IsIdentifier(key) {
          warnings := warnings + [key];
          continue;
        }
        stdout := stdout + (ExportLine(key, env[key]) + "\n");
      }
      assert keys[..|keys|] == keys;
    }

    method Run(mode: Mode, disk: Disk) returns (ghost loaded: seq<string>)
      requires stdout == ""
      modifies this
      ensures LoadedFrom(old(env), disk, EnvFilesFor(mode), env)
      ensures NoDup(loaded) && forall k :: k in loaded <==> k in env && k !in old(env)
      ensures stdout == Script(loaded, env)
      ensures mode == Development || mode == Test ==>
        forall k :: k in loaded <==> k !in old(env) && (Binds(disk, ".env.local", k) || Binds(disk, "apps/web/.env.local", k))
      ensures mode == Production || mode == Staging ==> stdout == ""
    {
      var before := env.Keys;
      LoadEnvFilesSafe(disk, EnvFilesFor(mode));
      var keys := Keys();
      loaded := Emit(keys, before);
      LocalFiles(disk);
      NothingIn(loaded);
    }
  }

  lemma {:induction false} FirstInAppend(disk: Disk, files: seq<string>, file: string)
    ensures forall key :: FirstIn(disk, files + [file], key) ==
              if FirstIn(disk, files, key).Some? then FirstIn(disk, files, key) else FirstIn(disk, [file], key)
  {
    if files == [] {
      assert files + [file] == [file];
    } else {
      assert (files + [file])[1..] == files[1..] + [file];
      FirstInAppend(disk, files[1..], file);
    }
  }

  // ---------------------------------------------------------------------------------------------
  // The shell
  // ---------------------------------------------------------------------------------------------

  datatype Lexed = Word(value: string, rest: string) | Unterminated | Special

  predicate IsDelimiter(c: char) { c in {' ', '\t', '\n'} }

  predicate IsOrdinary(c: char) { IsNameChar(c) || c in {'=', '-', '.', '/', ':', ',', '+', '@'} }

  function Prepend(c: char, l: Lexed): Lexed { if l.Word? then Word([c] + l.value, l.rest) else l }

  /** The rest of a word, outside quotes. */
  function LexUnquoted(s: string): (l: Lexed)
    ensures l.Word? ==> |l.rest| <= |s| && (s != "" && !IsDelimiter(s[0]) ==> |l.rest| < |s|)
    decreases |s|
  {
    if s == "" || IsDelimiter(s[0]) then Word("", s)
    else if s[0] == '\'' then LexQuoted(s[1..])
    else if s[0] == '\\' then
      if |s| == 1 then Unterminated
      else if s[1] == '\n' then LexUnquoted(s[2..])
      else Prepend(s[1], LexUnquoted(s[2..]))
    else if IsOrdinary(s[0]) then Prepend(s[0], LexUnquoted(s[1..]))
    else Special
  }

  /** The rest of a word, inside single quotes: everything up to the next single quote stands for itself. */
  function LexQuoted(s: string): (l: Lexed)
    ensures l.Word? ==> |l.rest| <= |s|
    decreases |s|
  {
    if s == "" then Unterminated
    else if s[0] == '\'' then LexUnquoted(s[1..])
    else Prepend(s[0], LexQuoted(s[1..]))
  }

  /** Shell variables, and the names marked for export. */
  datatype Shell = Shell(vars: Vars, exported: set<string>)

  /** What a child process is given. */
  function Environment(sh: Shell): Vars { map k | k in sh.vars && k in sh.exported :: sh.vars[k] }

  /** `export word`, for a word that is an assignment. */
  function Export(sh: Shell, word: string): Option<Shell> {
    var eq := Find(word, '=');
    if eq == |word| || !IsIdentifier(word[..eq]) then None
    else Some(Assign(sh, word[..eq], word[eq + 1..]))
  }

  function Assign(sh: Shell, key: string, value: string): Shell {
    Shell(sh.vars[key := value], sh.exported + {key})
  }

  /** Evaluates a script of `export` commands; `None` for anything else. */
  function Eval(s: string, sh: Shell): Option<Shell>
    decreases |s|
  {
    if s == "" then Some(sh)
    else if IsDelimiter(s[0]) then Eval(s[1..], sh)
    else
      match LexUnquoted(s)
      case Word(command, r) =>
        if command != "export" || r == "" || r[0] != ' ' then None
        else (
          match LexUnquoted(r[1..])
          case Word(word, r') =>
            if r' != "" && r'[0] != '\n' then None
            else (match Export(sh, word) case None => None case Some(sh') => Eval(r', sh'))
          case _ => None)
      case _ => None
  }

  /** Command substitution drops every newline at the end of the output. */
  function Substituted(out: string): string {
    if out != "" && out[|out| - 1] == '\n' then Substituted(out[..|out| - 1]) else out
  }

  /** `eval "$(npx tsx scripts/load-env.ts)"` */
  function Startup(sh: Shell, out: string): Option<Shell> { Eval(Substituted(out), sh) }

  // ---------------------------------------------------------------------------------------------
  // Lexing undoes quoting
  // ---------------------------------------------------------------------------------------------

  /** Section 2.2.2: everything between single quotes stands for itself. */
  lemma {:induction false} SingleQuotes(text: string, rest: string)
    requires '\'' !in text && LexUnquoted(rest).Word?
    ensures LexUnquoted("'" + text + "'" + rest) == Word(text + LexUnquoted(rest).value, LexUnquoted(rest).rest)
  {
    SingleQuotesClose(text, rest);
    assert ("'" + text + "'" + rest)[1..] == text + ("'" + rest);
  }

  lemma {:induction false} SingleQuotesClose(text: string, rest: string)
    requires '\'' !in text && LexUnquoted(rest).Word?
    ensures LexQuoted(text + ("'" + rest)) == Word(text + LexUnquoted(rest).value, LexUnquoted(rest).rest)
  {
    var s := text + ("'" + rest);
    if text == "" {
      assert s == "'" + rest && s[1..] == rest;
    } else {
      assert s[1..] == text[1..] + ("'" + rest) && s[0] == text[0];
      SingleQuotesClose(text[1..], rest);
      assert [text[0]] + (text[1..] + LexUnquoted(rest).value) == text + LexUnquoted(rest).value;
    }
  }

  /** Section 2.2.1: a backslash makes the next character stand for itself, and disappears with a newline. */
  lemma {:induction false} Backslash(c: char, rest: string)
    requires LexUnquoted(rest).Word?
    ensures LexUnquoted("\\" + [c] + rest) ==
              if c == '\n' then LexUnquoted(rest) else Word([c] + LexUnquoted(rest).value, LexUnquoted(rest).rest)
  {
    assert ("\\" + [c] + rest)[2..] == rest;
  }

  /** Command substitution removes the newlines at the end and nothing else. */
  lemma {:induction false} SubstitutedExactly(out: string, newlines: string)
    requires (out == "" || out[|out| - 1] != '\n') && forall i :: 0 <= i < |newlines| ==> newlines[i] == '\n'
    ensures Substituted(out + newlines) == out
  {
    if newlines == "" {
      assert out + newlines == out;
    } else {
      assert (out + newlines)[..|out + newlines| - 1] == out + newlines[..|newlines| - 1];
      SubstitutedExactly(out, newlines[..|newlines| - 1]);
    }
  }

  ghost predicate EndsWord(rest: string) { rest == "" || IsDelimiter(rest[0]) }

  /** A quote, an escaped quote and a quote lex to a single quote and leave the lexer inside quotes again. */
  lemma LexReopened(tail: string)
    ensures LexQuoted("'\\''" + tail) == Prepend('\'', LexQuoted(tail))
  {
    var s := "'\\''" + tail;
    assert s[1..][2..][1..] == tail;
    assert s[1..][0] == '\\' && s[1..][1] == '\'' && s[1..][2..][0] == '\'';
    assert LexUnquoted(s[1..][2..]) == LexQuoted(tail);
    assert LexUnquoted(s[1..]) == Prepend('\'', LexUnquoted(s[1..][2..]));
  }

  lemma LexInside(c: char, tail: string)
    requires c != '\''
    ensures LexQuoted([c] + tail) == Prepend(c, LexQuoted(tail))
  {
    assert ([c] + tail)[1..] == tail;
  }

  lemma EscapeHead(value: string, after: string)
    requires value != ""
    ensures EscapeQuotes(value) + after ==
              (if value[0] == '\'' then "'\\''" else [value[0]]) + (EscapeQuotes(value[1..]) + after)
  {
  }

  lemma {:induction false} LexEscaped(value: string, rest: string)
    requires EndsWord(rest)
    ensures LexQuoted(EscapeQuotes(value) + ("'" + rest)) == Word(value, rest)
  {
    if value == "" {
      assert EscapeQuotes(value) + ("'" + rest) == "'" + rest;
      assert ("'" + rest)[1..] == rest;
    } else {
      LexEscaped(value[1..], rest);
      EscapeHead(value, "'" + rest);
      var tail := EscapeQuotes(value[1..]) + ("'" + rest);
      if value[0] == '\'' { LexReopened(tail); } else { LexInside(value[0], tail); }
    }
  }

  /** The quoted text is one shell word whose value is the original, whatever it holds and whatever word follows. */
  lemma LexUndoesQuote(value: string, rest: string)
    requires EndsWord(rest)
    ensures LexUnquoted(BashQuote(value) + rest) == Word(value, rest)
  {
    var s := BashQuote(value) + rest;
    assert s[1..] == EscapeQuotes(value) + ("'" + rest);
    LexEscaped(value, rest);
  }

  lemma QuoteIsInjective(value: string, other: string)
    ensures BashQuote(value) == BashQuote(other) <==> value == other
  {
    LexUndoesQuote(value, "");
    LexUndoesQuote(other, "");
  }

  lemma LexOne(c: char, s: string)
    requires IsOrdinary(c)
    ensures LexUnquoted([c] + s) == Prepend(c, LexUnquoted(s))
  {
    assert ([c] + s)[1..] == s;
  }

  lemma {:induction false} LexOrdinary(p: string, s: string)
    requires LexUnquoted(s).Word? && forall i :: 0 <= i < |p| ==> IsOrdinary(p[i])
    ensures LexUnquoted(p + s) == Word(p + LexUnquoted(s).value, LexUnquoted(s).rest)
  {
    if p == "" {
      assert p + s == s;
    } else {
      LexOrdinary(p[1..], s);
      LexOne(p[0], p[1..] + s);
      ConcatAssoc([p[0]], p[1..], s);
      ConcatAssoc([p[0]], p[1..], LexUnquoted(s).value);
      assert p == [p[0]] + p[1..];
    }
  }

  lemma LexAssignment(key: string, value: string, rest: string)
    requires IsIdentifier(key) && EndsWord(rest)
    ensures LexUnquoted(key + "=" + BashQuote(value) + rest) == Word(key + "=" + value, rest)
  {
    LexUndoesQuote(value, rest);
    LexOrdinary(key + "=", BashQuote(value) + rest);
    assert (key + "=") + (BashQuote(value) + rest) == key + "=" + BashQuote(value) + rest;
  }

  lemma ExportAssignment(sh: Shell, key: string, value: string)
    requires IsIdentifier(key)
    ensures Export(sh, key + "=" + value) == Some(Assign(sh, key, value))
  {
    var word := key + "=" + value;
    assert word[..|key|] == key && word[|key| + 1..] == value;
    FindAt(word, '=', |key|);
  }

  lemma LexCommand(args: string)
    requires args != "" && IsDelimiter(args[0])
    ensures LexUnquoted("export" + args) == Word("export", args)
  {
    LexOrdinary("export", args);
  }

  /** Evaluating one printed line sets and exports exactly that variable. */
  lemma EvalLine(key: string, value: string, rest: string, sh: Shell)
    requires IsIdentifier(key) && (rest == "" || rest[0] == '\n')
    ensures Eval(ExportLine(key, value) + rest, sh) == Eval(rest, Assign(sh, key, value))
  {
    var word := key + "=" + BashQuote(value) + rest;
    var args := " " + word;
    assert args[1..] == word;
    assert ExportLine(key, value) + rest == "export" + args;
    LexCommand(args);
    LexAssignment(key, value, rest);
    ExportAssignment(sh, key, value);
  }

  // ---------------------------------------------------------------------------------------------
  // The whole program
  // ---------------------------------------------------------------------------------------------

  function ExportAll(sh: Shell, keys: seq<string>, env: Vars): Shell
    requires forall k :: k in keys ==> k in env
  {
    if keys == [] then sh
    else
      var init, last := keys[..|keys| - 1], keys[|keys| - 1];
      if IsIdentifier(last) then Assign(ExportAll(sh, init, env), last, env[last]) else ExportAll(sh, init, env)
  }

  lemma {:induction false} EvalScript(keys: seq<string>, env: Vars, rest: string, sh: Shell)
    requires forall k :: k in keys ==> k in env
    ensures Eval(Script(keys, env) + rest, sh) == Eval(rest, ExportAll(sh, keys, env))
    decreases |keys|
  {
    if keys == [] {
      assert Script(keys, env) + rest == rest;
    } else {
      var init, last := keys[..|keys| - 1], keys[|keys| - 1];
      if IsIdentifier(last) {
        var line := ExportLine(last, env[last]);
        var more := "\n" + rest;
        assert Script(keys, env) + rest == Script(init, env) + (line + more);
        EvalScript(init, env, line + more, sh);
        EvalLine(last, env[last], more, ExportAll(sh, init, env));
        assert more[1..] == rest;
      } else {
        assert Script(keys, env) == Script(init, env);
        EvalScript(init, env, rest, sh);
      }
    }
  }

  /** Losing the newlines at the end loses nothing: even a value that ends in newlines is closed by its quote. */
  lemma {:induction false} EvalSubstituted(keys: seq<string>, env: Vars, sh: Shell)
    requires forall k :: k in keys ==> k in env
    ensures Startup(sh, Script(keys, env)) == Some(ExportAll(sh, keys, env))
    decreases |keys|
  {
    if keys != [] {
      var init, last := keys[..|keys| - 1], keys[|keys| - 1];
      if IsIdentifier(last) {
        var line := ExportLine(last, env[last]);
        var out := Script(init, env) + line;
        assert Script(keys, env) == out + "\n";
        assert (out + "\n")[..|out|] == out && out[|out| - 1] == '\'';
        assert Substituted(out + "\n") == Substituted(out) == out;
        EvalScript(init, env, line, sh);
        EvalLine(last, env[last], "", ExportAll(sh, init, env));
        assert line + "" == line;
      } else {
        assert Script(keys, env) == Script(init, env);
        EvalSubstituted(init, env, sh);
      }
    }
  }

  lemma {:induction false} ExportAllAt(sh: Shell, keys: seq<string>, env: Vars, key: string)
    requires forall k :: k in keys ==> k in env
    ensures var after := ExportAll(sh, keys, env);
            if key in keys && IsIdentifier(key)
            then key in after.vars && after.vars[key] == env[key] && key in after.exported
            else (key in after.vars <==> key in sh.vars) && (key in after.exported <==> key in sh.exported)
                 && (key in sh.vars ==> after.vars[key] == sh.vars[key])
    decreases |keys|
  {
    if keys != [] {
      var init := keys[..|keys| - 1];
      assert keys == init + [keys[|keys| - 1]];
      ExportAllAt(sh, init, env, key);
    }
  }

  /** A run of the loader started by shell `sh`: what `LoaderProcess.Run` leaves behind. */
  ghost predicate LoaderRan(sh: Shell, mode: Mode, disk: Disk, env: Vars, loaded: seq<string>, out: string) {
    && LoadedFrom(Environment(sh), disk, EnvFilesFor(mode), env)
    && (forall k :: k in loaded <==> k in env && k !in Environment(sh))
    && out == Script(loaded, env)
  }

  /** What the shell has after evaluating the loader's output, whatever order the variables were printed in. */
  ghost predicate StartedUp(sh: Shell, mode: Mode, disk: Disk, after: Shell) {
    forall key ::
      var found := FirstIn(disk, EnvFilesFor(mode), key);
      if key !in Environment(sh) && IsIdentifier(key) && found.Some?
      then key in after.vars && after.vars[key] == found.value && key in after.exported
      else (key in after.vars <==> key in sh.vars) && (key in after.exported <==> key in sh.exported)
           && (key in sh.vars ==> after.vars[key] == sh.vars[key])
  }

  lemma {:induction false} StartupLoads(sh: Shell, mode: Mode, disk: Disk, env: Vars, loaded: seq<string>, out: string)
    requires LoaderRan(sh, mode, disk, env, loaded, out)
    ensures Startup(sh, out).Some? && StartedUp(sh, mode, disk, Startup(sh, out).value)
  {
    EvalSubstituted(loaded, env, sh);
    var after := Startup(sh, out).value;
    forall key
      ensures var found := FirstIn(disk, EnvFilesFor(mode), key);
              if key !in Environment(sh) && IsIdentifier(key) && found.Some?
              then key in after.vars && after.vars[key] == found.value && key in after.exported
              else (key in after.vars <==> key in sh.vars) && (key in after.exported <==> key in sh.exported)
                   && (key in sh.vars ==> after.vars[key] == sh.vars[key])
    {
      ExportAllAt(sh, loaded, env, key);
    }
  }

  /** What a launched process is given: the shell's environment, and the first binding of each new identifier. */
  ghost predicate EnvironmentLoaded(before: Vars, disk: Disk, files: seq<string>, after: Vars) {
    forall key ::
      if key in before then key in after && after[key] == before[key]
      else if IsIdentifier(key) && FirstIn(disk, files, key).Some?
      then key in after && after[key] == FirstIn(disk, files, key).value
      else key !in after
  }

  /** A new identifier has the value `.env.local` gives it, else the one `apps/web/.env.local` gives it, else none. */
  ghost predicate LocalFilesDecide(before: Vars, disk: Disk, after: Vars) {
    forall key :: key !in before && IsIdentifier(key) ==>
      if Binds(disk, ".env.local", key) then key in after && after[key] == disk[".env.local"].vars[key]
      else if Binds(disk, "apps/web/.env.local", key) then key in after && after[key] == disk["apps/web/.env.local"].vars[key]
      else key !in after
  }

  lemma EnvironmentAfterStartup(sh: Shell, mode: Mode, disk: Disk, after: Shell)
    requires StartedUp(sh, mode, disk, after)
    ensures EnvironmentLoaded(Environment(sh), disk, EnvFilesFor(mode), Environment(after))
  {
  }

  /** Step 0 of scripts/startup.sh: run the loader as a child process, then evaluate what it printed. */
  method LoadEnvironment(sh: Shell, mode: Mode, disk: Disk) returns (after: Shell)
    ensures StartedUp(sh, mode, disk, after)
    ensures EnvironmentLoaded(Environment(sh), disk, EnvFilesFor(mode), Environment(after))
    ensures mode == Development || mode == Test ==> LocalFilesDecide(Environment(sh), disk, Environment(after))
    ensures mode == Production || mode == Staging ==> after == sh
  {
    var loader := new LoaderProcess(Environment(sh));
    ghost var loaded := loader.Run(mode, disk);
    StartupLoads(sh, mode, disk, loader.env, loaded, loader.stdout);
    after := Startup(sh, loader.stdout).value;
    EnvironmentAfterStartup(sh, mode, disk, after);
    LocalFiles(disk);
    if mode == Production || mode == Staging {
      NothingLoadedInProduction(sh, mode, disk, loader.env, loaded, loader.stdout);
    }
  }

  /** An unexported shell variable that an env file binds otherwise: the one kind of variable a file does override. */
  ghost predicate Shadowed(sh: Shell, mode: Mode, disk: Disk, key: string) {
    key in sh.vars && key !in sh.exported && IsIdentifier(key)
    && FirstIn(disk, EnvFilesFor(mode), key).Some? && FirstIn(disk, EnvFilesFor(mode), key).value != sh.vars[key]
  }

  /** "A variable already set in the calling shell wins" holds exactly when no unexported one is bound otherwise by a file. */
  lemma {:induction false} AlreadySetWins(sh: Shell, mode: Mode, disk: Disk, after: Shell)
    requires StartedUp(sh, mode, disk, after)
    ensures (forall key :: key in sh.vars ==> key in after.vars && after.vars[key] == sh.vars[key])
       <==> (forall key :: !Shadowed(sh, mode, disk, key))
  {
    if forall key :: key in sh.vars ==> key in after.vars && after.vars[key] == sh.vars[key] {
      forall key ensures !Shadowed(sh, mode, disk, key) {
        assert key in sh.vars ==> key in after.vars && after.vars[key] == sh.vars[key];
      }
    }
    if forall key :: !Shadowed(sh, mode, disk, key) {
      forall key | key in sh.vars ensures key in after.vars && after.vars[key] == sh.vars[key] {
        assert !Shadowed(sh, mode, disk, key);
      }
    }
  }

  /** Such a variable exists: the startup script's own MODE, before it is exported. */
  lemma {:induction false} UnexportedIsOverridden(after: Shell)
    requires StartedUp(Shell(map["MODE" := "development"], {}), Development, map[".env.local" := Parsed(map["MODE" := "x"])], after)
    ensures "MODE" in after.vars && after.vars["MODE"] == "x"
  {
    var disk: Disk := map[".env.local" := Parsed(map["MODE" := "x"])];
    assert FirstIn(disk, EnvFilesFor(Development), "MODE") == Some("x");
    assert IsIdentifier("MODE");
  }

  /** In production and staging no file is loaded and the shell is left as it was. */
  lemma NothingLoadedInProduction(sh: Shell, mode: Mode, disk: Disk, env: Vars, loaded: seq<string>, out: string)
    requires mode == Production || mode == Staging
    requires LoaderRan(sh, mode, disk, env, loaded, out)
    ensures out == "" && Startup(sh, out) == Some(sh)
  {
    assert forall k :: FirstIn(disk, EnvFilesFor(mode), k).None?;
    NothingIn(loaded);
  }
}
