/**
 * Content fingerprints: `ClipboardMonitor._hash_content`, and the same digest
 * computed by the history stores and by the widget before it writes to the
 * clipboard.
 */
module Fingerprint {

  /**
   * The hex SHA-256 digest of the UTF-8 encoding of `s`. The digest algorithm is
   * not modelled: a tagged copy of the input stands for it. It keeps what the
   * application relies on: the same content always gives the same fingerprint,
   * a fingerprint is never empty, and equal fingerprints mean equal contents.
   */
  function Sha256Hex(s: string): string {
    "sha256:" + s
  }

  /**
   * `_hash_content(content)`. Encoding with `errors="ignore"` cannot fail, so the
   * `""` fallback of the source is never taken and the result is never empty.
   */
  function HashContent(content: string): (h: string)
    ensures h != ""
  {
    Sha256Hex(content)
  }

  /** Fingerprints identify contents: two contents share a fingerprint exactly when they are equal. */
  lemma HashIdentifiesContent(a: string, b: string)
    ensures HashContent(a) == HashContent(b) <==> a == b
  {
    if HashContent(a) == HashContent(b) {
      assert a == HashContent(a)[7..];
      assert b == HashContent(b)[7..];
    }
  }
}
