/**
 * File names of hot-swappable script libraries.
 *
 * A script library is recognised purely by its file name: the platform's
 * shared-library prefix, `scripts_` (with either case of the leading `s`),
 * a non-empty token of letters, digits and underscores, a dot and the
 * platform's shared-library extension. The recogniser is written as an
 * explicit positional predicate instead of a regular expression.
 */
module ScriptNames {

  /** The two platform families the loader distinguishes. */
  datatype Platform = Posix | Windows

  /** `lib` on posix systems, nothing on Windows. */
  function SharedLibraryPrefix(p: Platform): string
  {
    match p
    case Posix => "lib"
    case Windows => ""
  }

  /** `so` on posix systems, `dll` on Windows (without the dot). */
  function SharedLibraryExtension(p: Platform): string
  {
    match p
    case Posix => "so"
    case Windows => "dll"
  }

  /** One character of the class `[a-zA-Z0-9_]`. */
  predicate IsWordChar(c: char)
  {
    ('a' <= c <= 'z') || ('A' <= c <= 'Z') || ('0' <= c <= '9') || c == '_'
  }

  /** The module token of a library name: one or more word characters. */
  predicate IsModuleToken(s: string)
  {
    |s| > 0 && forall i :: 0 <= i < |s| ==> IsWordChar(s[i])
  }

  /** The leading letter of `scripts_` may be either case. */
  predicate IsScriptsInitial(c: char)
  {
    c == 's' || c == 'S'
  }

  /** Builds the library file name for a module token (the inverse of recognition). */
  function LibraryFileName(p: Platform, initial: char, token: string): string
  {
    SharedLibraryPrefix(p) + [initial] + "cripts_" + token + "." + SharedLibraryExtension(p)
  }

  /** Index of the first token character in a candidate name. */
  function TokenStart(p: Platform): nat
  {
    |SharedLibraryPrefix(p)| + 8
  }

  /**
   * The recogniser: `name` matches `^<prefix>[sS]cripts_[a-zA-Z0-9_]+\.<ext>$`.
   * Because the token cannot contain a dot, the token is exactly the text
   * between `scripts_` and the final `.<ext>`, so every part sits at a fixed
   * offset from one of the two ends.
   */
  predicate IsScriptModule(p: Platform, name: string)
  {
    var pre := SharedLibraryPrefix(p);
    var ext := SharedLibraryExtension(p);
    && |name| >= TokenStart(p) + 1 + 1 + |ext|
    && name[..|pre|] == pre
    && IsScriptsInitial(name[|pre|])
    && name[|pre| + 1..TokenStart(p)] == "cripts_"
    && IsModuleToken(name[TokenStart(p)..|name| - |ext| - 1])
    && name[|name| - |ext| - 1] == '.'
    && name[|name| - |ext|..] == ext
  }

  /** The module token of a recognised library name. */
  function ModuleToken(p: Platform, name: string): (token: string)
    requires IsScriptModule(p, name)
    ensures IsModuleToken(token)
    ensures |token| == |name| - |SharedLibraryPrefix(p)| - 9 - |SharedLibraryExtension(p)|
  {
    name[TokenStart(p)..|name| - |SharedLibraryExtension(p)| - 1]
  }

  /** Every name built by `LibraryFileName` from a valid token is recognised. */
  lemma LibraryFileNameIsScriptModule(p: Platform, initial: char, token: string)
    requires IsScriptsInitial(initial)
    requires IsModuleToken(token)
    ensures IsScriptModule(p, LibraryFileName(p, initial, token))
    ensures ModuleToken(p, LibraryFileName(p, initial, token)) == token
  {
    var pre := SharedLibraryPrefix(p);
    var ext := SharedLibraryExtension(p);
    var name := LibraryFileName(p, initial, token);
    assert name == pre + ([initial] + "cripts_") + token + ("." + ext);
    assert name[..|pre|] == pre;
    assert name[|pre|] == initial;
    assert name[|pre| + 1..TokenStart(p)] == "cripts_";
    assert name[TokenStart(p)..|name| - |ext| - 1] == token;
    assert name[|name| - |ext|..] == ext;
  }

  /** Every recognised name is rebuilt exactly from its initial letter and its token. */
  lemma ScriptModuleNameRoundTrip(p: Platform, name: string)
    requires IsScriptModule(p, name)
    ensures name == LibraryFileName(p, name[|SharedLibraryPrefix(p)|], ModuleToken(p, name))
  {
    var pre := SharedLibraryPrefix(p);
    var ext := SharedLibraryExtension(p);
    var k := TokenStart(p);
    var e := |name| - |ext| - 1;
    assert name == name[..|pre|] + [name[|pre|]] + name[|pre| + 1..k] + name[k..e] + [name[e]] + name[e + 1..];
  }

  /**
   * The recogniser accepts exactly the names of the documented shape:
   * prefix, `s` or `S`, `cripts_`, a word-character token, `.`, extension.
   */
  lemma ScriptModuleCharacterisation(p: Platform, name: string)
    ensures IsScriptModule(p, name) <==>
      exists initial: char, token: string {:trigger LibraryFileName(p, initial, token)} ::
        IsScriptsInitial(initial) && IsModuleToken(token) && name == LibraryFileName(p, initial, token)
  {
    if IsScriptModule(p, name) {
      ScriptModuleNameRoundTrip(p, name);
    }
    if exists initial: char, token: string {:trigger LibraryFileName(p, initial, token)} ::
        IsScriptsInitial(initial) && IsModuleToken(token) && name == LibraryFileName(p, initial, token) {
      var initial: char, token: string :| IsScriptsInitial(initial) && IsModuleToken(token) && name == LibraryFileName(p, initial, token);
      LibraryFileNameIsScriptModule(p, initial, token);
    }
  }
}
