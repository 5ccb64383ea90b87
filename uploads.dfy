/**
 * Upload helpers: the extension check `allowed_file` and the loop of
 * `save_uploaded_file` that makes a stored image name unique.
 *
 * The name given to the loop is already the output of werkzeug's `secure_filename`
 * (not modelled), and the files present in the upload folder are a finite set of
 * names.
 */
module Uploads {
  import opened Text

  const ALLOWED_EXTENSIONS: set<string> := {"png", "jpg", "jpeg", "gif", "svg"}

  /** `filename.rsplit('.', 1)[1]`: the text after the last dot. */
  function Extension(name: string): (r: string)
    requires '.' in name
    ensures '.' !in r
    ensures exists i :: 0 <= i < |name| && name[i] == '.' && r == name[i + 1..]
  {
    name[LastIndexOf(name, '.') + 1..]
  }

  /** `allowed_file`: the name has a dot and the text after its last dot, lowercased,
    * is one of the image extensions. */
  predicate AllowedFile(name: string)
  {
    '.' in name && Lower(Extension(name)) in ALLOWED_EXTENSIONS
  }

  /** Only the part after the last dot decides, whatever comes before it. */
  lemma AllowedFileOf(base: string, ext: string)
    requires '.' !in ext
    ensures AllowedFile(base + "." + ext) <==> Lower(ext) in ALLOWED_EXTENSIONS
  {
    var name := base + "." + ext;
    assert name[|base|] == '.';
    assert name[|base| + 1..] == ext;
  }

  /** A capitalised image extension is accepted. */
  lemma AllowedUpperCase()
    ensures AllowedFile("circuit.PNG")
  {
    var ext := "PNG";
    AllowedFileOf("circuit", ext);
    assert "circuit.PNG" == "circuit" + "." + ext;
    assert Lower(ext) == "png" by {
      assert Lower(ext) == [LowerChar('P'), LowerChar('N'), LowerChar('G')];
    }
  }

  /** A double extension is judged by its last part only. */
  lemma RejectedDoubleExtension()
    ensures !AllowedFile("photo.png.exe")
  {
    var ext := "exe";
    AllowedFileOf("photo.png", ext);
    assert "photo.png.exe" == "photo.png" + "." + ext;
    assert Lower(ext) == ext by {
      assert Lower(ext) == [LowerChar('e'), LowerChar('x'), LowerChar('e')];
    }
    assert ext !in ALLOWED_EXTENSIONS by {
      assert ext[1] == 'x';
    }
  }

  predicate AllDots(s: string)
  {
    forall i :: 0 <= i < |s| ==> s[i] == '.'
  }

  /** POSIX `os.path.splitext`: the extension runs from the last dot of the last path
    * component, unless everything before that dot in the component is dots (so a
    * leading-dot name such as ".png" has no extension). */
  function SplitExt(p: string): (r: (string, string))
    ensures r.0 + r.1 == p
    ensures r.1 == [] || (r.1[0] == '.' && '.' !in r.1[1..] && '/' !in r.1)
  {
    if '.' !in p then (p, [])
    else
      var dot := LastIndexOf(p, '.');
      var start := if '/' in p then LastIndexOf(p, '/') + 1 else 0;
      if start <= dot && !AllDots(p[start..dot]) then
        assert p == p[..dot] + p[dot..];
        (p[..dot], p[dot..])
      else (p, [])
  }

  lemma SplitExtExamples()
    ensures SplitExt("a.png") == ("a", ".png")
    ensures SplitExt(".png") == (".png", "")
  {
    assert LastIndexOf("a.png", '.') == 1;
    var p := "a.png";
    assert p[0] == 'a' && p[2] == 'p' && p[3] == 'n' && p[4] == 'g';
    assert '/' !in p;
    assert p[0..1][0] == 'a';
    assert !AllDots(p[0..1]);
    assert p[..1] == "a" && p[1..] == ".png";
    assert LastIndexOf(".png", '.') == 0;
  }

  /** The name tried in round `k` of the loop: the name itself first, then
    * `{base}_{k}{ext}`. */
  function Candidate(base: string, ext: string, k: nat): string
  {
    if k == 0 then base + ext else base + "_" + Dec(k) + ext
  }

  /** Different rounds try different names, so the loop cannot retry a name. */
  lemma CandidateInjective(base: string, ext: string, i: nat, j: nat)
    requires Candidate(base, ext, i) == Candidate(base, ext, j)
    ensures i == j
  {
    var a := Candidate(base, ext, i);
    if i != 0 && j != 0 {
      assert |Dec(i)| == |Dec(j)|;
      var lo := |base| + 1;
      var hi := |a| - |ext|;
      assert a[lo..hi] == Dec(i);
      assert Candidate(base, ext, j)[lo..hi] == Dec(j);
      DecInjective(i, j);
    }
  }

  /** The loop of `save_uploaded_file`: the first candidate name not already present.
    * `k` is the number of names found taken. */
  method UniqueFilename(filename: string, existing: set<string>) returns (name: string, ghost k: nat)
    ensures name !in existing
    ensures name == Candidate(SplitExt(filename).0, SplitExt(filename).1, k)
    ensures forall i :: 0 <= i < k ==> Candidate(SplitExt(filename).0, SplitExt(filename).1, i) in existing
  {
    var parts := SplitExt(filename);
    var base, ext := parts.0, parts.1;
    name := filename;
    var counter := 1;
    ghost var tried: set<string> := {};
    while name in existing
      invariant counter >= 1
      invariant name == Candidate(base, ext, counter - 1)
      invariant forall i :: 0 <= i < counter - 1 ==> Candidate(base, ext, i) in existing
      invariant tried == set i | 0 <= i < counter - 1 :: Candidate(base, ext, i)
      invariant tried <= existing
      decreases existing - tried
    {
      forall i | 0 <= i < counter - 1
        ensures Candidate(base, ext, i) != name
      {
        if Candidate(base, ext, i) == name {
          CandidateInjective(base, ext, i, counter - 1);
        }
      }
      tried := tried + {name};
      name := base + "_" + Dec(counter) + ext;
      counter := counter + 1;
    }
    k := counter - 1;
  }
}
