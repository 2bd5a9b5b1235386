/** Member-expression names as dotted paths. */
module DottedNames {
  import opened Text

  /** `p` is what remains of `key` after dropping trailing segments. */
  predicate IsDottedPrefix(p: string, key: string) {
    |p| < |key| && p == key[..|p|] && key[|p|] == '.'
  }

  /** The proper prefixes of a dotted path, shortest first. */
  function SubSegments(key: string): seq<string> {
    var parts := Split(key, '.');
    seq(|parts| - 1, i requires 0 <= i < |parts| - 1 => Join(parts[..i + 1], '.'))
  }

  function FirstSegment(path: string): string {
    Split(path, '.')[0]
  }

  lemma SubSegmentsAreDottedPrefixes(key: string)
    ensures forall p :: p in SubSegments(key) <==> IsDottedPrefix(p, key)
  {
    forall p ensures p in SubSegments(key) <==> IsDottedPrefix(p, key) {
      if p in SubSegments(key) {
        SubSegmentIsPrefix(key, p);
      }
      if IsDottedPrefix(p, key) {
        PrefixIsSubSegment(key, p);
      }
    }
  }

  lemma SubSegmentIsPrefix(key: string, p: string)
    requires p in SubSegments(key)
    ensures IsDottedPrefix(p, key)
  {
    var parts := Split(key, '.');
    var i :| 0 <= i < |parts| - 1 && p == Join(parts[..i + 1], '.');
    JoinConcat(parts[..i + 1], parts[i + 1..], '.');
    assert parts == parts[..i + 1] + parts[i + 1..];
    JoinSplit(key, '.');
  }

  lemma PrefixIsSubSegment(key: string, p: string)
    requires IsDottedPrefix(p, key)
    ensures p in SubSegments(key)
  {
    var rest := key[|p| + 1..];
    assert key == p + ['.'] + rest;
    SplitConcat(p, rest, '.');
    var i := |Split(p, '.')| - 1;
    assert Split(key, '.')[..i + 1] == Split(p, '.');
    JoinSplit(p, '.');
    assert SubSegments(key)[i] == p;
  }

  lemma DottedPrefixTransitive(p: string, q: string, key: string)
    requires IsDottedPrefix(p, q) && IsDottedPrefix(q, key)
    ensures IsDottedPrefix(p, key)
  {
  }

  /** The first segment of an identifier followed by a member path is the identifier. */
  lemma FirstSegmentOfPath(name: string, rest: string)
    requires '.' !in name && (rest == "" || rest[0] == '.')
    ensures FirstSegment(name + rest) == name
  {
    if rest == "" {
      assert name + rest == name;
      SplitPlain(name, '.');
    } else {
      assert name + rest == name + ['.'] + rest[1..];
      SplitConcat(name, rest[1..], '.');
      SplitPlain(name, '.');
    }
  }
}
