/** The session files under `sudoku/` and `crossword/` on the local disk,
    seen as a key-value store from an opaque token to one game record. */
module SessionStore {
  import opened Wrappers

  type Token = string
  type Store<R> = map<Token, R>

  predicate IsAlphaNum(ch: char) {
    ('a' <= ch <= 'z') || ('A' <= ch <= 'Z') || ('0' <= ch <= '9')
  }

  /** The shape of what `Str::random(16)` returns. */
  predicate IsToken(t: Token) {
    |t| == 16 && forall i :: 0 <= i < |t| ==> IsAlphaNum(t[i])
  }

  /** `Storage::put`: writes the record under the token. An existing file
      under the same name is overwritten. */
  function Put<R>(s: Store<R>, t: Token, rec: R): (s': Store<R>)
    ensures s'.Keys == s.Keys + {t}
    ensures s'[t] == rec
    ensures forall u :: u in s && u != t ==> s'[u] == s[u]
  {
    s[t := rec]
  }

  /** `Storage::get` followed by a decode: the record, or nothing when no
      file exists under the token. */
  function Get<R>(s: Store<R>, t: Token): (r: Option<R>)
    ensures r.Some? <==> t in s
    ensures r.Some? ==> r.value == s[t]
  {
    if t in s then Some(s[t]) else None
  }
}
