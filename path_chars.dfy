/**
 * `normalize_path_chars` from functions.py: the characters that are not
 * allowed in file names are replaced by look-alike characters, one
 * replacement pass per entry of a fixed table.
 */
module PathChars {

  /** The replacement table, in the order of the source's dictionary literal. */
  const Replacements: seq<(char, char)> := [
    (':', '：'),  // fullwidth colon
    ('/', '∕'),  // division slash
    ('?', '﹖'),  // small question mark
    ('<', '〈'),  // left angle bracket
    ('>', '〉'),  // right angle bracket
    ('"', '＂'),  // fullwidth quotation mark
    ('|', '｜'),  // fullwidth vertical line
    ('*', '٭')   // arabic five pointed star
  ]

  /** The characters the table replaces, listed out; `ReservedIsTableKey` proves the two lists agree. */
  predicate IsReserved(c: char) {
    c == ':' || c == '/' || c == '?' || c == '<' || c == '>' || c == '"' || c == '|' || c == '*'
  }

  /** A character is reserved exactly when it is a key of the replacement table. */
  lemma ReservedIsTableKey(c: char)
    ensures IsReserved(c) <==> exists i :: 0 <= i < |Replacements| && Replacements[i].0 == c
  {
    if IsReserved(c) {
      var i := if c == ':' then 0 else if c == '/' then 1 else if c == '?' then 2 else if c == '<' then 3
        else if c == '>' then 4 else if c == '"' then 5 else if c == '|' then 6 else 7;
      assert Replacements[i].0 == c;
    }
    forall i | 0 <= i < |Replacements| ensures IsReserved(Replacements[i].0) {
    }
  }

  /** The look-alike a single character ends up as; characters outside the table stay. */
  function NormalizeChar(c: char): (d: char)
    ensures !IsReserved(d)
    ensures IsReserved(c) <==> d != c
  {
    match c
    case ':' => '：'
    case '/' => '∕'
    case '?' => '﹖'
    case '<' => '〈'
    case '>' => '〉'
    case '"' => '＂'
    case '|' => '｜'
    case '*' => '٭'
    case _ => c
  }

  /** A path with every character normalised on its own. */
  function Normalized(path: string): string {
    seq(|path|, i requires 0 <= i < |path| => NormalizeChar(path[i]))
  }

  /**
   * `str.replace` with a one-character pattern: every occurrence of `from`
   * becomes `to`, and nothing else changes.
   */
  function Replace(s: string, from: char, to: char): (r: string)
    ensures |r| == |s|
    ensures forall i :: 0 <= i < |s| ==> r[i] == if s[i] == from then to else s[i]
  {
    if s == [] then [] else [if s[0] == from then to else s[0]] + Replace(s[1..], from, to)
  }

  /** What the first `k` passes of the replacement loop make of one character. */
  function ReplaceFirst(k: int, c: char): char
    requires 0 <= k <= |Replacements|
  {
    if k == 0 then c
    else
      var d := ReplaceFirst(k - 1, c);
      if d == Replacements[k - 1].0 then Replacements[k - 1].1 else d
  }

  /** The characters replaced by the first `k` passes. */
  ghost function ReplacedBy(k: int): set<char>
    requires 0 <= k <= |Replacements|
  {
    set i | 0 <= i < k :: Replacements[i].0
  }

  /**
   * After the first `k` passes a character has become its look-alike if one
   * of those passes replaces it, and is unchanged otherwise. This holds
   * because no look-alike is itself a character the table replaces, so no
   * later pass touches a replaced character again.
   */
  lemma {:induction false} ReplaceFirstMatchesTable(k: int, c: char)
    requires 0 <= k <= |Replacements|
    ensures ReplaceFirst(k, c) == if c in ReplacedBy(k) then NormalizeChar(c) else c
  {
    if k > 0 {
      ReplaceFirstMatchesTable(k - 1, c);
      assert ReplacedBy(k) == ReplacedBy(k - 1) + {Replacements[k - 1].0};
    }
  }

  /** Running every pass of the loop is the same as normalising each character once. */
  lemma AllPassesNormalize(c: char)
    ensures ReplaceFirst(|Replacements|, c) == NormalizeChar(c)
  {
    ReplaceFirstMatchesTable(|Replacements|, c);
    ReservedIsTableKey(c);
  }

  /**
   * `normalize_path_chars`: one `replace` pass over the path per table
   * entry. The result is the path with every character normalised on its
   * own: same length, no reserved character left, every reserved character
   * replaced at its own position by its look-alike and every other
   * character kept.
   */
  method NormalizePathChars(path: string) returns (r: string)
    ensures r == Normalized(path)
    ensures |r| == |path|
    ensures forall i :: 0 <= i < |r| ==> !IsReserved(r[i])
    ensures forall i :: 0 <= i < |path| && !IsReserved(path[i]) ==> r[i] == path[i]
    ensures forall i :: 0 <= i < |path| && IsReserved(path[i]) ==> r[i] == NormalizeChar(path[i])
  {
    var tmp := path;
    for k := 0 to |Replacements|
      invariant |tmp| == |path|
      invariant forall i :: 0 <= i < |path| ==> tmp[i] == ReplaceFirst(k, path[i])
    {
      var (x, y) := Replacements[k];
      tmp := Replace(tmp, x, y);
    }
    forall i | 0 <= i < |path| ensures tmp[i] == NormalizeChar(path[i]) {
      AllPassesNormalize(path[i]);
    }
    r := tmp;
  }

  /** Normalising a path that is already normalised changes nothing. */
  lemma NormalizedIdempotent(path: string)
    ensures Normalized(Normalized(path)) == Normalized(path)
  {
    var once := Normalized(path);
    forall i | 0 <= i < |once| ensures Normalized(once)[i] == once[i] {
      assert !IsReserved(once[i]);
    }
  }
}
