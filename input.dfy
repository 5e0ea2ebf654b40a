/** Keyboard handling: p5.js calls `keyPressed` and `keyReleased` with the code of the key,
    and each handler writes one of the player's two intents. */
module Input {
  import opened Kinematics

  /** p5.js key codes of the arrow keys. */
  const LEFT_ARROW: int := 37
  const UP_ARROW: int := 38
  const RIGHT_ARROW: int := 39
  const DOWN_ARROW: int := 40

  /** Up walks forward, down walks back, right turns right, left turns left; any other key
      leaves both intents as they were. */
  method KeyPressed(player: Player, keyCode: int)
    requires player.Valid()
    modifies player`walkDirection, player`turnDirection
    ensures player.Valid()
    ensures player.walkDirection == (if keyCode == UP_ARROW then 1
                                     else if keyCode == DOWN_ARROW then -1
                                     else old(player.walkDirection))
    ensures player.turnDirection == (if keyCode == RIGHT_ARROW then 1
                                     else if keyCode == LEFT_ARROW then -1
                                     else old(player.turnDirection))
  {
    if keyCode == UP_ARROW {
      player.walkDirection := 1;
    } else if keyCode == DOWN_ARROW {
      player.walkDirection := -1;
    } else if keyCode == RIGHT_ARROW {
      player.turnDirection := 1;
    } else if keyCode == LEFT_ARROW {
      player.turnDirection := -1;
    }
  }

  /** Releasing up or down stops walking, releasing right or left stops turning, whichever
      of the pair was pressed last; any other key leaves both intents as they were. */
  method KeyReleased(player: Player, keyCode: int)
    requires player.Valid()
    modifies player`walkDirection, player`turnDirection
    ensures player.Valid()
    ensures player.walkDirection == (if keyCode == UP_ARROW || keyCode == DOWN_ARROW then 0
                                     else old(player.walkDirection))
    ensures player.turnDirection == (if keyCode == RIGHT_ARROW || keyCode == LEFT_ARROW then 0
                                     else old(player.turnDirection))
  {
    if keyCode == UP_ARROW {
      player.walkDirection := 0;
    } else if keyCode == DOWN_ARROW {
      player.walkDirection := 0;
    } else if keyCode == RIGHT_ARROW {
      player.turnDirection := 0;
    } else if keyCode == LEFT_ARROW {
      player.turnDirection := 0;
    }
  }
}
