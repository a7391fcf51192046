/**
 * Filesystem paths as the text of a Unix `PathBuf`. Only `Path::join` is
 * needed; whether a path exists is a question the callers answer from a set
 * of present paths.
 */
module Paths {
  import opened Text

  type Path = string

  /**
   * `Path::join` on Unix: an absolute component replaces the base; otherwise
   * a `/` is inserted unless the base is empty or already ends with one.
   */
  function Join(base: Path, c: string): (r: Path)
    ensures c != [] && c[0] == '/' ==> r == c
    ensures (c == [] || c[0] != '/') ==> StartsWith(r, base) && EndsWith(r, c) && |r| <= |base| + 1 + |c|
    ensures (c == [] || c[0] != '/') && base != [] && base[|base| - 1] != '/' ==> r == base + "/" + c
    ensures (c == [] || c[0] != '/') && (base == [] || base[|base| - 1] == '/') ==> r == base + c
  {
    if c != [] && c[0] == '/' then c
    else if base == [] || base[|base| - 1] == '/' then base + c
    else base + "/" + c
  }

  /** The separator `Join` puts between `base` and a relative component: none after an empty base or a trailing `/`. */
  function Separator(base: Path): string {
    if base == [] || base[|base| - 1] == '/' then "" else "/"
  }

  /** Two relative components joined in turn are separated by exactly one `/`. */
  lemma JoinTwice(base: Path, a: string, b: string)
    requires a != [] && a[0] != '/' && a[|a| - 1] != '/'
    requires b != [] && b[0] != '/'
    ensures Join(Join(base, a), b) == base + Separator(base) + a + "/" + b
  {
    var ba := base + Separator(base) + a;
    assert Join(base, a) == ba;
    assert ba[|ba| - 1] == a[|a| - 1];
  }
}
